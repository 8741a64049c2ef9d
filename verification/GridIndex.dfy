/** `get_local_indices` and `grab_point` of hive/src/bdt_sig.cxx: a global grid index is
    written in the mixed radix given by the lengths of the axes, last axis fastest. */
module GridIndex {
  import opened Arithmetic

  type Axes = seq<seq<real>>

  // `int` against `size_t`: the index is converted to 64 unsigned bits before it is divided
  // and the quotient is narrowed back to 32 signed bits.
  const TWO32 := 0x1_0000_0000
  const TWO64 := 0x1_0000_0000_0000_0000

  function ToUnsigned64(g: int): int {
    if g < 0 then g + TWO64 else g
  }

  function ToInt32(u: int): int {
    var r := u % TWO32;
    if r < TWO32 / 2 then r else r - TWO32
  }

  ghost predicate NonEmptyAxes(axes: Axes) {
    forall b :: 0 <= b < |axes| ==> axes[b] != []
  }

  function Divide(g: int, size: nat): (q: int)
    requires size > 0
  {
    ToInt32(ToUnsigned64(g) / size)
  }

  function Digit(g: int, size: nat): (d: int)
    requires size > 0
    ensures 0 <= d < size
  {
    ToUnsigned64(g) % size
  }

  function Digits(g: int, axes: Axes): (idx: seq<int>)
    requires NonEmptyAxes(axes)
    ensures |idx| == |axes|
    decreases |axes|
  {
    if axes == [] then []
    else
      var n := |axes| - 1;
      Digits(Divide(g, |axes[n]|), axes[..n]) + [Digit(g, |axes[n]|)]
  }

  function Reversed(s: seq<int>): seq<int> {
    if s == [] then [] else Reversed(s[1..]) + [s[0]]
  }

  lemma {:induction false} ReversedAppend(s: seq<int>, x: int)
    ensures Reversed(s + [x]) == [x] + Reversed(s)
  {
    if s == [] {
      assert s + [x] == [x] && Reversed([x][1..]) == [];
    } else {
      assert (s + [x])[1..] == s[1..] + [x];
      ReversedAppend(s[1..], x);
    }
  }

  /** `get_local_indices`: digits are pushed last axis first, then reversed. */
  method GetLocalIndices(globalIndex: int, axes: Axes) returns (index: seq<int>)
    requires NonEmptyAxes(axes)
    ensures index == Digits(globalIndex, axes)
  {
    var pushed: seq<int> := [];
    var g := globalIndex;
    var j := |axes| - 1;
    assert axes[..j + 1] == axes;
    while j >= 0
      invariant -1 <= j < |axes|
      invariant Digits(globalIndex, axes) == Digits(g, axes[..j + 1]) + Reversed(pushed)
    {
      assert axes[..j + 1][..j] == axes[..j];
      ReversedAppend(pushed, Digit(g, |axes[j]|));
      pushed := pushed + [Digit(g, |axes[j]|)];
      g := Divide(g, |axes[j]|);
      j := j - 1;
    }
    index := Reversed(pushed);
  }

  method GrabPoint(pt: int, axes: Axes) returns (point: seq<real>)
    requires NonEmptyAxes(axes)
    ensures InGrid(Digits(pt, axes), axes)
    ensures point == PointAt(Digits(pt, axes), axes)
    ensures |point| == |axes| && forall b :: 0 <= b < |axes| ==> point[b] == axes[b][Digits(pt, axes)[b]]
  {
    var indices := GetLocalIndices(pt, axes);
    DigitsInGrid(pt, axes);
    point := [];
    for i := 0 to |indices|
      invariant point == PointAt(indices, axes)[..i]
    {
      point := point + [axes[i][indices[i]]];
    }
  }

  // ----- The reference: tuples of indices -----

  /** One index per axis. */
  ghost predicate InGrid(idx: seq<int>, axes: Axes) {
    |idx| == |axes| && forall b :: 0 <= b < |axes| ==> 0 <= idx[b] < |axes[b]|
  }

  function PointAt(idx: seq<int>, axes: Axes): (p: seq<real>)
    requires InGrid(idx, axes)
    ensures |p| == |axes|
  {
    seq(|axes|, b requires 0 <= b < |axes| => axes[b][idx[b]])
  }

  function TotalPoints(axes: Axes): nat {
    if axes == [] then 1 else TotalPoints(axes[..|axes| - 1]) * |axes[|axes| - 1]|
  }

  /** The position of a tuple in the scan. */
  function Encode(idx: seq<int>, axes: Axes): int
    requires |idx| == |axes|
  {
    if axes == [] then 0
    else
      var n := |axes| - 1;
      Encode(idx[..n], axes[..n]) * |axes[n]| + idx[n]
  }

  /** Every index, even the -1 of a scan without a best point, selects an existing point. */
  lemma {:induction false} DigitsInGrid(g: int, axes: Axes)
    requires NonEmptyAxes(axes)
    ensures InGrid(Digits(g, axes), axes)
    decreases |axes|
  {
    hide Divide, Digit;
    if axes != [] {
      var n := |axes| - 1;
      DigitsInGrid(Divide(g, |axes[n]|), axes[..n]);
    }
  }

  lemma DivideSmall(g: int, size: nat)
    requires 0 <= g < TWO32 / 2 && size > 0
    ensures Divide(g, size) == g / size && 0 <= g / size <= g
  {
    QuotientBounds(g, size);
  }

  /** Decoding then encoding is the identity on the indices of the scan. */
  lemma {:induction false} EncodeDigits(g: int, axes: Axes)
    requires NonEmptyAxes(axes) && 0 <= g < TotalPoints(axes) && g < TWO32 / 2
    ensures Encode(Digits(g, axes), axes) == g
    decreases |axes|
  {
    if axes != [] {
      var n := |axes| - 1;
      var size, total := |axes[n]|, TotalPoints(axes[..n]);
      DivideSmall(g, size);
      QuotientBounds(g, size);
      BlockBounds(g / size, total, size, g % size);
      EncodeDigits(g / size, axes[..n]);
      assert Digits(g, axes)[..n] == Digits(g / size, axes[..n]);
    }
  }

  /** Encoding then decoding is the identity on the tuples of the grid. */
  lemma {:induction false} DigitsEncode(idx: seq<int>, axes: Axes)
    requires NonEmptyAxes(axes) && InGrid(idx, axes) && TotalPoints(axes) <= TWO32 / 2
    ensures 0 <= Encode(idx, axes) < TotalPoints(axes)
    ensures Digits(Encode(idx, axes), axes) == idx
  {
    if axes != [] {
      var n := |axes| - 1;
      var size, total := |axes[n]|, TotalPoints(axes[..n]);
      TotalShrinks(total, size);
      DigitsEncode(idx[..n], axes[..n]);
      var q := Encode(idx[..n], axes[..n]);
      BlockBounds(q, total, size, idx[n]);
      SplitIndex(q, size, idx[n]);
      DivideSmall(q * size + idx[n], size);
      assert idx == idx[..n] + [idx[n]];
    }
  }

  lemma TotalShrinks(total: nat, size: nat)
    requires size > 0
    ensures total <= total * size
  {
    MulMonotone(1, size, total);
  }

  /** So the scan meets every tuple of the grid at exactly one index. */
  lemma EveryTupleOnce(idx: seq<int>, axes: Axes, g: int)
    requires NonEmptyAxes(axes) && InGrid(idx, axes) && TotalPoints(axes) <= TWO32 / 2
    ensures 0 <= g < TotalPoints(axes) && Digits(g, axes) == idx <==> g == Encode(idx, axes)
  {
    DigitsEncode(idx, axes);
    if 0 <= g < TotalPoints(axes) {
      EncodeDigits(g, axes);
    }
  }

  /** The scan walks the tuples in lexicographic order: the first axis slowest, the last fastest. */
  lemma {:induction false} EncodeIsLexicographic(idx: seq<int>, jdx: seq<int>, axes: Axes, p: nat)
    requires InGrid(idx, axes) && InGrid(jdx, axes) && p < |axes|
    requires idx[..p] == jdx[..p] && idx[p] < jdx[p]
    ensures Encode(idx, axes) < Encode(jdx, axes)
  {
    var n := |axes| - 1;
    if p == n {
      assert idx[..n] == jdx[..n];
    } else {
      assert idx[..n][..p] == idx[..p] && jdx[..n][..p] == jdx[..p];
      EncodeIsLexicographic(idx[..n], jdx[..n], axes[..n], p);
      var a, b, size := Encode(idx[..n], axes[..n]), Encode(jdx[..n], axes[..n]), |axes[n]|;
      MulMonotone(a + 1, b, size);
      assert (a + 1) * size == a * size + size;
    }
  }

  /** The point printed for index -1: the conversion to 64 bits decides its last digit. */
  lemma LastDigitOfMinusOne(axes: Axes)
    requires NonEmptyAxes(axes) && axes != []
    ensures Digits(-1, axes)[|axes| - 1] == (0x1_0000_0000_0000_0000 - 1) % |axes[|axes| - 1]|
  {}

  /** The digits before it are those of the quotient, narrowed to 32 bits. */
  lemma OtherDigitsOfMinusOne(axes: Axes)
    requires NonEmptyAxes(axes) && axes != []
    ensures var n := |axes| - 1;
      var q := (0x1_0000_0000_0000_0000 - 1) / |axes[n]| % 0x1_0000_0000;
      Digits(-1, axes)[..n] == Digits(if q < 0x8000_0000 then q else q - 0x1_0000_0000, axes[..n])
  {
    hide Digit;
    assert Digits(-1, axes)[..|axes| - 1] == Digits(Divide(-1, |axes[|axes| - 1]|), axes[..|axes| - 1]);
  }
}
