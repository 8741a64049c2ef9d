/** `TiXmlString` of hive/tinyxml/tinystr.h and tinystr.cpp: a terminated character buffer
    that grows by appending. */
module TinyString {

  const NUL: char := '\0'

  /** A heap-allocated representation, and whether it has been deleted. `TiXmlString` points to
      one, or to none where the source points to the shared `nullrep_`, which always has size
      and capacity 0. */
  class Rep {
    var size: nat
    var freed: bool
    const capacity: nat
    const str: array<char>

    constructor (sz: nat, cap: nat)
      requires sz <= cap
      ensures size == sz && capacity == cap && str.Length == cap + 1 && str[sz] == NUL
      ensures !freed && fresh(str)
    {
      size, freed, capacity := sz, false, cap;
      str := new char[cap + 1](_ => NUL);
    }

    ghost predicate Valid()
      reads this, str
    {
      !freed && size <= capacity && str.Length == capacity + 1 && str[size] == NUL
    }
  }

  /** Length, capacity, bytes copied by `reserve` so far, and how often it reallocated. */
  datatype Stats = Stats(length: nat, capacity: nat, copied: nat, grown: nat)

  function AfterReserve(s: Stats, cap: nat): Stats {
    if cap > s.capacity then Stats(s.length, cap, s.copied + s.length, s.grown + 1) else s
  }

  function AfterAppend(s: Stats, len: nat): Stats {
    var newsize := s.length + len;
    var t := if newsize > s.capacity then AfterReserve(s, newsize + s.capacity) else s;
    t.(length := newsize)
  }

  class TiXmlString {
    var rep: Rep?
    ghost var copied: nat
    ghost var grown: nat

    ghost function Buffer(): set<object>
      reads this, rep
    {
      if rep == null then {} else {rep, rep.str}
    }

    ghost predicate Valid()
      reads this, rep, Buffer()
    {
      rep != null ==> rep.Valid()
    }

    function Length(): nat
      reads this, rep
    {
      if rep == null then 0 else rep.size
    }

    function Capacity(): nat
      reads this, rep
    {
      if rep == null then 0 else rep.capacity
    }

    ghost function Contents(): string
      reads this, rep, Buffer()
      requires Valid()
    {
      if rep == null then "" else rep.str[..rep.size]
    }

    ghost function Statistics(): Stats
      reads this, rep
    {
      Stats(Length(), Capacity(), copied, grown)
    }

    constructor ()
      ensures Valid() && Contents() == "" && Statistics() == Stats(0, 0, 0, 0) && rep == null
    {
      rep := null;
      copied, grown := 0, 0;
    }

    /** `init(sz, cap)`: no buffer is allocated for capacity 0. */
    method Init(sz: nat, cap: nat)
      requires sz <= cap
      modifies this`rep
      ensures Valid() && fresh(Buffer()) && Length() == sz && Capacity() == cap
      ensures rep != null ==> fresh(rep)
      ensures rep == null <==> cap == 0
    {
      if cap != 0 {
        rep := new Rep(sz, cap);
      } else {
        rep := null;
      }
    }

    method SetSize(sz: nat)
      requires rep != null ==> !rep.freed && sz <= rep.capacity && rep.str.Length == rep.capacity + 1
      requires rep == null ==> sz == 0
      modifies Buffer()
      ensures Valid() && Length() == sz && rep == old(rep) && Buffer() == old(Buffer())
      ensures rep != null ==> forall i :: 0 <= i < sz ==> rep.str[i] == old(rep.str[i])
    {
      if rep != null {
        rep.size := sz;
        rep.str[sz] := NUL;
      }
    }

    /** `memcpy` or `memmove` of `chars` to offset `at`. */
    method Write(at: nat, chars: string)
      requires rep != null ==> at + |chars| < rep.str.Length
      requires rep == null ==> chars == ""
      modifies if rep == null then {} else {rep.str}
      ensures rep != null ==> forall i :: 0 <= i < rep.str.Length ==>
        rep.str[i] == if at <= i < at + |chars| then chars[i - at] else old(rep.str[i])
    {
      if rep != null {
        for k := 0 to |chars|
          invariant forall i :: 0 <= i < rep.str.Length ==>
            rep.str[i] == if at <= i < at + k then chars[i - at] else old(rep.str[i])
        {
          rep.str[at + k] := chars[k];
        }
      }
    }

    /** The end of a temporary that holds `r`. */
    static method Quit(r: Rep?)
      modifies r
      ensures r != null ==> r.freed && r.size == old(r.size)
    {
      if r != null {
        r.freed := true;
      }
    }

    /** The contents move to a new buffer and the old one is freed, if the capacity does not do. */
    method Reserve(cap: nat)
      requires Valid()
      modifies this, Buffer()
      ensures Valid() && Contents() == old(Contents())
      ensures Statistics() == AfterReserve(old(Statistics()), cap)
      ensures cap <= old(Capacity()) <==> rep == old(rep)
      ensures rep == old(rep) || fresh(Buffer())
      ensures rep != old(rep) && old(rep) != null ==> old(rep).freed
      ensures rep != old(rep) ==>
        Capacity() == cap && copied == old(copied) + |old(Contents())| && grown == old(grown) + 1
      ensures rep == old(rep) ==> copied == old(copied) && grown == old(grown)
    {
      if cap > Capacity() {
        ghost var kept := Contents();
        var before := rep;
        var length := Length();
        var data: string := if rep == null then "" else rep.str[..rep.size];
        copied, grown := copied + length, grown + 1;
        Init(length, cap);
        Write(0, data);
        Quit(before);
        assert rep.str[..rep.size] == kept;
      }
    }

    /** `chars` at the front and nothing else, in a buffer with room for them. */
    method Fill(chars: string)
      requires Valid() && |chars| <= Capacity()
      modifies Buffer()
      ensures Valid() && Contents() == chars && rep == old(rep) && Buffer() == old(Buffer())
      ensures rep != null ==> rep.freed == old(rep.freed)
    {
      Write(0, chars);
      SetSize(|chars|);
      assert rep != null ==> rep.str[..rep.size] == chars;
    }

    method Assign(str: string)
      requires Valid()
      modifies this, Buffer()
      ensures Valid() && Contents() == str
      ensures |str| <= Capacity() <= 3 * (|str| + 8)
      ensures copied == old(copied) && grown == old(grown)
    {
      var cap, len := Capacity(), |str|;
      if len > cap || cap > 3 * (len + 8) {
        var before := rep;
        Init(len, len);
        Fill(str);
        Quit(before);
      } else {
        Fill(str);
      }
    }

    method Append(str: string)
      requires Valid()
      modifies this, Buffer()
      ensures Valid() && Contents() == old(Contents()) + str
      ensures Statistics() == AfterAppend(old(Statistics()), |str|)
      ensures rep == old(rep) || fresh(Buffer())
      ensures old(Length()) + |str| <= old(Capacity()) ==> rep == old(rep)
      ensures Capacity() == if old(Length()) + |str| > old(Capacity()) then old(Length()) + |str| + old(Capacity())
                            else old(Capacity())
    {
      var newsize := Length() + |str|;
      if newsize > Capacity() {
        Reserve(newsize + Capacity());
      }
      Extend(str);
    }

    /** `memmove` to the end, once there is room. */
    method Extend(chars: string)
      requires Valid() && Length() + |chars| <= Capacity()
      modifies Buffer()
      ensures Valid() && Contents() == old(Contents()) + chars
      ensures Length() == old(Length()) + |chars| && rep == old(rep) && Buffer() == old(Buffer())
      ensures rep != null ==> rep.freed == old(rep.freed)
    {
      ghost var kept := Contents();
      var newsize := Length() + |chars|;
      Write(Length(), chars);
      SetSize(newsize);
      if rep != null {
        assert rep.str[..newsize] == kept + chars;
      }
    }

    /** The argument of `append` and `assign`: a stretch of some buffer, which may be the own one. */
    ghost predicate IsArgument(src: Rep, from: nat, len: nat)
      reads this, rep, src, src.str
    {
      src.Valid() && from + len <= src.size && (rep != null && src != rep ==> src.str != rep.str)
    }

    /** `append` from a buffer. The copy reads freed memory, which is where this stops, exactly
        when the argument points into the own buffer and that buffer has been replaced. */
    method AppendFrom(src: Rep, from: nat, len: nat) returns (dangles: bool)
      requires Valid() && IsArgument(src, from, len)
      modifies this, Buffer()
      ensures dangles <==> src.freed
      ensures dangles <==> src == old(rep) && rep != old(rep)
      ensures rep != old(rep) <==> old(Length()) + len > old(Capacity())
      ensures Valid()
      ensures Contents() == old(Contents()) + if dangles then "" else old(src.str[from..from + len])
      ensures !dangles ==> Statistics() == AfterAppend(old(Statistics()), len)
    {
      ghost var kept, text := Contents(), src.str[from..from + len];
      var newsize := Length() + len;
      if newsize > Capacity() {
        Reserve(newsize + Capacity());
      }
      assert Contents() == kept;
      dangles := src.freed;
      if !dangles {
        assert src.str[from..from + len] == text;
        Extend(src.str[from..from + len]);
      }
    }

    /** `assign` from a buffer never reads freed memory: a replaced buffer outlives the copy. */
    method AssignFrom(src: Rep, from: nat, len: nat) returns (dangles: bool)
      requires Valid() && IsArgument(src, from, len)
      modifies this, Buffer()
      ensures !dangles && Valid() && Contents() == old(src.str[from..from + len])
      ensures src.freed <==> src == old(rep) && rep != old(rep)
      ensures rep != old(rep) <==> len > old(Capacity()) || old(Capacity()) > 3 * (len + 8)
    {
      var cap := Capacity();
      if len > cap || cap > 3 * (len + 8) {
        var before := rep;
        Init(len, len);
        dangles := src.freed;
        Fill(src.str[from..from + len]);
        Quit(before);
      } else {
        dangles := src.freed;
        Fill(src.str[from..from + len]);
      }
    }

    method Clear()
      requires Valid()
      modifies this`rep, rep
      ensures Valid() && Contents() == "" && rep == null
    {
      Quit(rep);
      Init(0, 0);
    }

    method Swap(other: TiXmlString)
      requires Valid() && other.Valid()
      modifies this`rep, other`rep
      ensures Valid() && other.Valid()
      ensures Contents() == old(other.Contents()) && other.Contents() == old(Contents())
    {
      var r := rep;
      rep := other.rep;
      other.rep := r;
    }
  }

  /** `operator +`: the single reservation is exact, so neither append moves the buffer. */
  method Concatenate(a: string, b: string) returns (sum: TiXmlString)
    ensures fresh(sum) && sum.Valid() && sum.Contents() == a + b
    ensures sum.Capacity() == |a| + |b| && sum.copied == 0
  {
    sum := new TiXmlString();
    sum.Reserve(|a| + |b|);
    sum.Append(a);
    sum.Append(b);
  }

  // ----- The cost of building a string by appending -----

  /** The statistics after appending pieces of these lengths to an empty string. */
  function AfterAppends(lengths: seq<nat>): Stats {
    if lengths == [] then Stats(0, 0, 0, 0)
    else AfterAppend(AfterAppends(lengths[..|lengths| - 1]), lengths[|lengths| - 1])
  }

  function Total(lengths: seq<nat>): nat {
    if lengths == [] then 0 else Total(lengths[..|lengths| - 1]) + lengths[|lengths| - 1]
  }

  function Concat(pieces: seq<string>): string {
    if pieces == [] then "" else Concat(pieces[..|pieces| - 1]) + pieces[|pieces| - 1]
  }

  function Lengths(pieces: seq<string>): (lengths: seq<nat>)
    ensures |lengths| == |pieces|
  {
    seq(|pieces|, i requires 0 <= i < |pieces| => |pieces[i]|)
  }

  lemma OneMorePiece(pieces: seq<string>, i: nat)
    requires i < |pieces|
    ensures Concat(pieces[..i + 1]) == Concat(pieces[..i]) + pieces[i]
    ensures AfterAppends(Lengths(pieces[..i + 1])) == AfterAppend(AfterAppends(Lengths(pieces[..i])), |pieces[i]|)
  {
    assert pieces[..i + 1][..i] == pieces[..i];
    assert Lengths(pieces[..i + 1])[..i] == Lengths(pieces[..i]);
  }

  lemma NoPieces()
    ensures Concat([]) == "" && AfterAppends(Lengths([])) == Stats(0, 0, 0, 0)
  {}

  /** Any run of appends on an empty string. */
  method AppendAll(pieces: seq<string>) returns (s: TiXmlString)
    ensures fresh(s) && s.Valid() && s.Contents() == Concat(pieces)
    ensures s.Statistics() == AfterAppends(Lengths(pieces))
  {
    s := new TiXmlString();
    NoPieces();
    hide Concat, AfterAppends, AfterAppend, Lengths;
    for i := 0 to |pieces|
      invariant fresh(s) && fresh(s.Buffer()) && s.Valid()
      invariant s.Contents() == Concat(pieces[..i])
      invariant s.Statistics() == AfterAppends(Lengths(pieces[..i]))
    {
      OneMorePiece(pieces, i);
      s.Append(pieces[i]);
    }
    assert pieces[..|pieces|] == pieces;
  }

  function Pow2(n: nat): nat {
    if n == 0 then 1 else 2 * Pow2(n - 1)
  }

  /** Every reallocation more than doubles the capacity and is paid for by it. */
  lemma {:induction false} AppendInvariant(lengths: seq<nat>)
    ensures var s := AfterAppends(lengths);
      && s.length == Total(lengths) <= s.capacity
      && s.copied <= s.capacity && Pow2(s.grown) <= s.capacity + 1
      && (s.capacity == 0 || s.capacity < 2 * s.length)
  {
    if lengths != [] {
      AppendInvariant(lengths[..|lengths| - 1]);
    }
  }

  /** Building a string by appending copies fewer than twice its final length in all, in a
      logarithmic number of reallocations. */
  lemma AppendsAreAmortised(lengths: seq<nat>)
    ensures var s := AfterAppends(lengths);
      && s.length == Total(lengths)
      && (s.length == 0 ==> s.copied == 0 && s.grown == 0)
      && (s.length > 0 ==> s.copied < 2 * s.length && Pow2(s.grown) <= 2 * s.length)
  {
    AppendInvariant(lengths);
    NoGrowthWhileEmpty(lengths);
  }

  lemma {:induction false} NoGrowthWhileEmpty(lengths: seq<nat>)
    ensures AfterAppends(lengths).length == 0 ==> AfterAppends(lengths) == Stats(0, 0, 0, 0)
  {
    if lengths != [] {
      NoGrowthWhileEmpty(lengths[..|lengths| - 1]);
    }
  }
}
