/** `add_simple_to_formula` of hive/src/bdt_var.cxx: every BDT score `..._mva` in a formula is
    renamed to `simple_..._mva`. */
module Formula {

  const SIMPLE := "simple_"

  /** `math_op_character` */
  predicate IsOperator(c: char) {
    c in " ()\\/[]+-*|:#{}^=$"
  }

  /** "_mva" stands at k. */
  predicate Occurs(s: string, k: int): (occurs: bool)
    ensures occurs ==> 0 <= k && k + 4 <= |s|
  {
    0 <= k && k + 4 <= |s| && s[k] == '_' && s[k + 1] == 'm' && s[k + 2] == 'v' && s[k + 3] == 'a'
  }

  /** `s.find("_mva", i)`, with |s| for `npos`. */
  function Find(s: string, i: nat): (r: nat)
    requires i <= |s|
    ensures i <= r <= |s| && (r < |s| ==> Occurs(s, r) && r + 4 <= |s|)
    ensures forall k :: i <= k < r ==> !Occurs(s, k)
    decreases |s| - i
  {
    if i == |s| || Occurs(s, i) then i else Find(s, i + 1)
  }

  /** `s.find_last_of(operators, end - 1)`, with -1 for `npos`. */
  function LastOperator(s: string, end: nat): (r: int)
    requires end <= |s|
    ensures -1 <= r < end && (r >= 0 ==> IsOperator(s[r]))
    ensures forall k :: r < k < end ==> !IsOperator(s[k])
  {
    if end == 0 then -1
    else if IsOperator(s[end - 1]) then end - 1
    else LastOperator(s, end - 1)
  }

  /** The search bound `pos - 1` wraps around at pos 0 and then covers the whole text. */
  function SearchEnd(s: string, pos: nat): (end: nat)
    requires pos <= |s|
    ensures end <= |s|
  {
    if pos == 0 then |s| else pos
  }

  /** `s.substr(from, count)`; a negative count wraps around to a huge one. */
  function Substr(s: string, from: nat, count: int): string
    requires from <= |s|
  {
    if count < 0 || from + count > |s| then s[from..] else s[from..from + count]
  }

  /** What one round of the loop appends for a score found at pos. */
  function Renamed(s: string, pos: nat): string
    requires pos + 4 <= |s|
  {
    var start := LastOperator(s, SearchEnd(s, pos));
    if start != -1 then s[..start + 1] + SIMPLE + Substr(s, start + 1, pos + 3 - start)
    else SIMPLE + s[..pos + 4]
  }

  function Rewrite(s: string): string {
    var pos := Find(s, 0);
    if pos == |s| then s else Renamed(s, pos) + Rewrite(s[pos + 4..])
  }

  /** What one round adds to the result. */
  method RenameFirst(temp: string, pos: nat) returns (piece: string)
    requires pos + 4 <= |temp|
    ensures piece == Renamed(temp, pos)
  {
    hide IsOperator, Substr, LastOperator;
    var start := LastOperator(temp, SearchEnd(temp, pos));
    if start != -1 {
      piece := temp[..start + 1] + SIMPLE + Substr(temp, start + 1, pos + 3 - start);
    } else {
      piece := SIMPLE + temp[..pos + 4];
    }
  }

  method AddSimpleToFormula(input: string) returns (result: string)
    ensures result == Rewrite(input)
  {
    hide Renamed, Find, Occurs;
    var temp := input;
    result := "";
    var pos := Find(temp, 0);
    while pos != |temp|
      invariant pos == Find(temp, 0)
      invariant Rewrite(input) == result + Rewrite(temp)
      decreases |temp|
    {
      var piece := RenameFirst(temp, pos);
      Reassociate(result, piece, Rewrite(temp[pos + 4..]));
      result := result + piece;
      temp := temp[pos + 4..];
      pos := Find(temp, 0);
    }
    result := result + temp;
  }

  lemma Reassociate(a: string, b: string, c: string)
    ensures a + (b + c) == (a + b) + c
  {}

  // ----- What separates two names -----

  lemma OperatorIff(c: char)
    ensures IsOperator(c)
       <==> c in {' ', '(', ')', '\\', '/', '[', ']', '+', '-', '*', '|', ':', '#', '{', '}', '^', '=', '$'}
  {}

  lemma NameLettersAreNoOperators()
    ensures !IsOperator('a') && !IsOperator('b')
  {}

  lemma FirstOfTwoNames(c: char)
    ensures var s := "a_mva" + [c] + "b_mva"; Rewrite(s) == "simple_a_mva" + Rewrite([c] + "b_mva")
  {
    NameLettersAreNoOperators();
    hide IsOperator;
    var s := "a_mva" + [c] + "b_mva";
    assert Occurs(s, 1) && !Occurs(s, 0);
    assert Find(s, 0) == 1;
    assert s[5..] == [c] + "b_mva";
    assert LastOperator(s, 1) == -1;
    assert s[..5] == "a_mva";
    assert SIMPLE + s[..5] == "simple_a_mva";
  }

  lemma SecondOfTwoNames(c: char)
    ensures Rewrite([c] + "b_mva") == if IsOperator(c) then [c] + "simple_b_mva" else "simple_" + [c] + "b_mva"
  {
    NameLettersAreNoOperators();
    hide IsOperator;
    var t := [c] + "b_mva";
    assert Occurs(t, 2) && !Occurs(t, 0) && !Occurs(t, 1);
    assert Find(t, 0) == 2;
    assert t[6..] == [] && Rewrite([]) == [];
    assert LastOperator(t, 2) == if IsOperator(c) then 0 else -1;
    if IsOperator(c) {
      assert Substr(t, 1, 5) == "b_mva";
      assert [c] + SIMPLE + "b_mva" == [c] + "simple_b_mva";
    } else {
      assert SIMPLE + t[..6] == "simple_" + [c] + "b_mva";
    }
  }

  /** Two names are renamed one by one exactly when an operator stands between them; any other
      character becomes part of the second name. */
  lemma OperatorsSeparate(c: char)
    ensures Rewrite("a_mva" + [c] + "b_mva")
         == (if c in {' ', '(', ')', '\\', '/', '[', ']', '+', '-', '*', '|', ':', '#', '{', '}', '^', '=', '$'}
             then "simple_a_mva" + [c] + "simple_b_mva"
             else "simple_a_mva" + "simple_" + [c] + "b_mva")
  {
    hide IsOperator, Rewrite;
    OperatorIff(c);
    FirstOfTwoNames(c);
    SecondOfTwoNames(c);
    assert "simple_a_mva" + ([c] + "simple_b_mva") == "simple_a_mva" + [c] + "simple_b_mva";
    assert "simple_a_mva" + ("simple_" + [c] + "b_mva") == "simple_a_mva" + "simple_" + [c] + "b_mva";
  }

  // ----- The reference: where a score name begins -----

  /** A score name may begin at the start, after an operator, or right after another score. */
  predicate IsBoundary(s: string, i: int)
    requires 0 <= i < |s|
  {
    i == 0 || IsOperator(s[i - 1]) || Occurs(s, i - 4)
  }

  /** The name that begins at i ends in the score at q. */
  predicate NameUpTo(s: string, i: int, q: int) {
    0 <= i <= q && Occurs(s, q) && forall k :: i <= k < q ==> !Occurs(s, k) && !IsOperator(s[k])
  }

  ghost predicate IsNameStart(s: string, i: int) {
    0 <= i < |s| && IsBoundary(s, i) && exists q :: NameUpTo(s, i, q)
  }

  /** s with "simple_" put in front of every score name that begins among its first n characters. */
  ghost function Weave(s: string, n: nat): string
    requires n <= |s|
  {
    if n == 0 then ""
    else Weave(s, n - 1) + (if IsNameStart(s, n - 1) then SIMPLE else "") + [s[n - 1]]
  }

  /** The condition a caller can check: no "_mva" that starts the formula or directly follows
      another one has an operator somewhere after it. */
  ghost predicate Clean(s: string) {
    forall q :: HeadScore(s, q) ==> NoOperatorFrom(s, q)
  }

  predicate HeadScore(s: string, q: int) {
    Occurs(s, q) && (q == 0 || Occurs(s, q - 4))
  }

  predicate NoOperatorFrom(s: string, q: int) {
    forall k :: 0 <= k < |s| && q <= k ==> !IsOperator(s[k])
  }

  lemma NoOverlap(s: string, p: int, q: int)
    requires Occurs(s, p) && Occurs(s, q)
    ensures q <= p || q >= p + 4
  {}

  lemma OccursInTail(s: string, d: nat, k: int)
    requires d <= |s| && k >= 0
    ensures Occurs(s[d..], k) <==> Occurs(s, d + k)
  {}

  lemma ScoreHasNoOperator(s: string, p: int, k: int)
    requires Occurs(s, p) && p <= k < p + 4
    ensures !IsOperator(s[k])
  {
    assert s[k] == '_' || s[k] == 'm' || s[k] == 'v' || s[k] == 'a';
  }

  lemma OperatorBreaksScore(s: string, p: int, k: int)
    requires 0 <= p <= k < p + 4 && k < |s| && IsOperator(s[k])
    ensures !Occurs(s, p)
  {}

  lemma NoOccursBefore(s: string, pos: nat, k: int)
    requires pos == Find(s, 0)
    ensures Occurs(s, k) ==> pos <= k
  {}

  /** The one name start of the first segment. */
  function FirstStart(s: string, pos: nat): nat
    requires pos <= |s|
  {
    LastOperator(s, pos) + 1
  }

  lemma FirstSegmentStarts(s: string, pos: nat, i: nat)
    requires pos == Find(s, 0) < |s| && i < pos + 4
    ensures IsNameStart(s, i) <==> i == FirstStart(s, pos)
  {
    hide IsOperator, Occurs;
    var start := FirstStart(s, pos);
    if i == start {
      assert NameUpTo(s, i, pos);
    }
    if IsNameStart(s, i) {
      NoOccursBefore(s, pos, i - 4);
      var q :| NameUpTo(s, i, q);
      NoOccursBefore(s, pos, q);
      NoOverlap(s, pos, q);
      if i > pos {
        ScoreHasNoOperator(s, pos, i - 1);
      } else {
        assert q == pos;
      }
    }
  }

  /** Name starts of the rest are those of the remaining text on its own. */
  lemma TailStarts(s: string, pos: nat, i: nat)
    requires pos == Find(s, 0) < |s| && i < |s| - (pos + 4)
    ensures IsNameStart(s, pos + 4 + i) <==> IsNameStart(s[pos + 4..], i)
  {
    hide IsOperator, Occurs;
    var d := pos + 4;
    var t := s[d..];
    TailBoundary(s, pos, i);
    if IsNameStart(t, i) {
      var q :| NameUpTo(t, i, q);
      TailName(s, d, i, q);
    }
    if IsNameStart(s, d + i) {
      var q :| NameUpTo(s, d + i, q);
      TailName(s, d, i, q - d);
    }
  }

  lemma TailBoundary(s: string, pos: nat, i: nat)
    requires pos == Find(s, 0) < |s| && i < |s| - (pos + 4)
    ensures IsBoundary(s, pos + 4 + i) <==> IsBoundary(s[pos + 4..], i)
  {
    hide IsOperator;
    var d := pos + 4;
    if 0 < i < 4 {
      if i == 1 {
        assert s[d] == s[d..][0];
      }
      NoScoreAcross(s, pos, d + i - 4);
    } else if i >= 4 {
      OccursInTail(s, d, i - 4);
    }
    assert i > 0 ==> s[d..][i - 1] == s[d + i - 1];
  }

  lemma NoScoreAcross(s: string, p: int, q: int)
    requires Occurs(s, p) && p < q < p + 4
    ensures !Occurs(s, q)
  {}

  lemma TailName(s: string, d: nat, i: nat, q: int)
    requires d <= |s|
    ensures NameUpTo(s[d..], i, q) <==> NameUpTo(s, d + i, d + q)
  {
    hide IsOperator, Occurs;
    var t := s[d..];
    forall k | k >= 0
      ensures Occurs(t, k) <==> Occurs(s, d + k)
    {
      OccursInTail(s, d, k);
    }
    if NameUpTo(t, i, q) {
      forall k | d + i <= k < d + q
        ensures !Occurs(s, k) && !IsOperator(s[k])
      {
        assert !Occurs(t, k - d) && t[k - d] == s[k];
      }
    }
    if NameUpTo(s, d + i, d + q) {
      forall k | i <= k < q
        ensures !Occurs(t, k) && !IsOperator(t[k])
      {
        assert !Occurs(s, d + k) && t[k] == s[d + k];
      }
    }
  }

  lemma {:induction false} WeavePlain(s: string, n: nat)
    requires n <= |s| && forall i :: 0 <= i < n ==> !IsNameStart(s, i)
    ensures Weave(s, n) == s[..n]
  {
    if n > 0 {
      WeavePlain(s, n - 1);
      assert s[..n] == s[..n - 1] + [s[n - 1]];
    }
  }

  lemma {:induction false} WeaveOne(s: string, n: nat, start: nat)
    requires start < n <= |s| && forall i :: 0 <= i < n ==> (IsNameStart(s, i) <==> i == start)
    ensures Weave(s, n) == s[..start] + SIMPLE + s[start..n]
  {
    hide IsNameStart;
    if n == start + 1 {
      WeavePlain(s, start);
      assert s[start..n] == [s[start]];
    } else {
      WeaveOne(s, n - 1, start);
      assert s[start..n] == s[start..n - 1] + [s[n - 1]];
    }
  }

  lemma WeaveNothing(s: string)
    ensures Weave(s, 0) == ""
  {}

  lemma WeaveStep(s: string, n: nat)
    requires 0 < n <= |s|
    ensures Weave(s, n) == Weave(s, n - 1) + (if IsNameStart(s, n - 1) then SIMPLE else "") + [s[n - 1]]
  {}

  lemma {:induction false} WeaveSplit(s: string, pos: nat, n: nat)
    requires pos == Find(s, 0) < |s| && n <= |s| - (pos + 4)
    ensures Weave(s, pos + 4 + n) == Weave(s, pos + 4) + Weave(s[pos + 4..], n)
  {
    hide IsNameStart, Find, Occurs, Weave;
    var d, t := pos + 4, s[pos + 4..];
    if n == 0 {
      WeaveNothing(t);
    } else {
      WeaveSplit(s, pos, n - 1);
      TailStarts(s, pos, n - 1);
      assert t[n - 1] == s[d + n - 1];
      WeaveStep(s, d + n);
      WeaveStep(t, n);
      var insertion := if IsNameStart(t, n - 1) then SIMPLE else "";
      assert Weave(s, d) + Weave(t, n - 1) + insertion + [t[n - 1]]
          == Weave(s, d) + (Weave(t, n - 1) + insertion + [t[n - 1]]);
    }
  }

  /** The weave of the first segment, when pos is not caught by the wrap-around. */
  lemma WeaveFirst(s: string, pos: nat)
    requires pos == Find(s, 0) < |s|
    ensures Weave(s, pos + 4) == s[..FirstStart(s, pos)] + SIMPLE + s[FirstStart(s, pos)..pos + 4]
  {
    forall i | 0 <= i < pos + 4
      ensures IsNameStart(s, i) <==> i == FirstStart(s, pos)
    {
      FirstSegmentStarts(s, pos, i);
    }
    WeaveOne(s, pos + 4, FirstStart(s, pos));
  }

  /** One round: right unless the score is at the front of a text that still has an operator;
      then the text is copied to its end and comes out too long. */
  lemma RenamedIs(s: string, pos: nat)
    requires pos == Find(s, 0) < |s|
    ensures pos > 0 || LastOperator(s, |s|) == -1 ==> Renamed(s, pos) == Weave(s, pos + 4)
    ensures |Renamed(s, pos)| >= |Weave(s, pos + 4)|
    ensures pos == 0 && LastOperator(s, |s|) != -1 ==> |Renamed(s, pos)| > |Weave(s, pos + 4)|
  {
    hide IsOperator, Occurs, Weave;
    WeaveFirst(s, pos);
    var start := LastOperator(s, SearchEnd(s, pos));
    if pos > 0 && start != -1 {
      assert Substr(s, start + 1, pos + 3 - start) == s[start + 1..pos + 4];
    }
    if pos == 0 && start != -1 {
      if start < 4 {
        ScoreHasNoOperator(s, 0, start);
      }
      assert Substr(s, start + 1, pos + 3 - start) == s[start + 1..];
    }
  }

  lemma NoScores(s: string)
    requires Find(s, 0) == |s|
    ensures Weave(s, |s|) == s && Clean(s)
  {
    forall i | 0 <= i < |s|
      ensures !IsNameStart(s, i)
    {}
    WeavePlain(s, |s|);
    assert s[..|s|] == s;
  }

  /** Cleanness, segment by segment. */
  lemma CleanStep(s: string, pos: nat)
    requires pos == Find(s, 0) < |s|
    ensures Clean(s) <==> (pos > 0 || LastOperator(s, |s|) == -1) && Clean(s[pos + 4..])
  {
    if Clean(s) {
      CleanTail(s, pos);
    }
    if (pos > 0 || LastOperator(s, |s|) == -1) && Clean(s[pos + 4..]) {
      CleanFromTail(s, pos);
    }
  }

  lemma CleanTail(s: string, pos: nat)
    requires pos == Find(s, 0) < |s| && Clean(s)
    ensures (pos > 0 || LastOperator(s, |s|) == -1) && Clean(s[pos + 4..])
  {
    hide IsOperator, Occurs;
    var d := pos + 4;
    var t := s[d..];
    if pos == 0 {
      assert HeadScore(s, 0);
    }
    forall q | HeadScore(t, q)
      ensures NoOperatorFrom(t, q)
    {
      OccursInTail(s, d, q);
      if q > 0 {
        OccursInTail(s, d, q - 4);
      }
      assert HeadScore(s, d + q);
      TailOperators(s, d, q);
    }
  }

  lemma TailOperators(s: string, d: nat, q: nat)
    requires d <= |s|
    ensures NoOperatorFrom(s[d..], q) <==> NoOperatorFrom(s, d + q)
  {
    hide IsOperator;
    var t := s[d..];
    forall k | 0 <= k < |t|
      ensures t[k] == s[d + k]
    {}
    if NoOperatorFrom(t, q) {
      forall k | d + q <= k < |s|
        ensures !IsOperator(s[k])
      {
        assert s[k] == t[k - d];
      }
    }
  }

  lemma CleanFromTail(s: string, pos: nat)
    requires pos == Find(s, 0) < |s| && Clean(s[pos + 4..])
    requires pos > 0 || LastOperator(s, |s|) == -1
    ensures Clean(s)
  {
    hide IsOperator, Occurs;
    var d := pos + 4;
    var t := s[d..];
    forall q | HeadScore(s, q)
      ensures NoOperatorFrom(s, q)
    {
      NoOccursBefore(s, pos, q);
      if q > 0 {
        NoOccursBefore(s, pos, q - 4);
        NoOverlap(s, pos, q - 4);
        OccursInTail(s, d, q - d);
        if q > d {
          OccursInTail(s, d, q - 4 - d);
        }
        assert HeadScore(t, q - d);
        TailOperators(s, d, q - d);
      }
    }
  }

  lemma {:induction false} RewriteNotShorter(s: string)
    ensures |Rewrite(s)| >= |Weave(s, |s|)|
    decreases |s|
  {
    hide Renamed, Weave, IsOperator, Occurs, LastOperator;
    var pos := Find(s, 0);
    if pos == |s| {
      NoScores(s);
    } else {
      RenamedIs(s, pos);
      RewriteNotShorter(s[pos + 4..]);
      WeaveSplit(s, pos, |s| - (pos + 4));
    }
  }

  /** The rewritten formula is the input with "simple_" in front of exactly the score names,
      nothing lost and nothing repeated, exactly for clean formulas. */
  lemma {:induction false} RewriteIsWeaveIff(s: string)
    ensures Rewrite(s) == Weave(s, |s|) <==> Clean(s)
    decreases |s|
  {
    hide Renamed, Weave, IsOperator, Occurs, LastOperator, Clean;
    var pos := Find(s, 0);
    if pos == |s| {
      NoScores(s);
    } else {
      var t := s[pos + 4..];
      RenamedIs(s, pos);
      WeaveSplit(s, pos, |t|);
      CleanStep(s, pos);
      RewriteIsWeaveIff(t);
      RewriteNotShorter(t);
      CancelPrefix(Renamed(s, pos), Rewrite(t), Weave(s, pos + 4), Weave(t, |t|));
    }
  }

  /** The failing input: the search bound wraps around at the leading score, finds the operator
      behind it, and the rest comes out twice. */
  lemma LeadingScoreIsRepeated()
    ensures var s := "_mva+x"; Rewrite(s) != Weave(s, |s|)
  {
    var s := "_mva+x";
    assert HeadScore(s, 0) && IsOperator(s[4]);
    assert !NoOperatorFrom(s, 0);
    RewriteIsWeaveIff(s);
  }

  lemma CancelPrefix(a: string, b: string, c: string, d: string)
    ensures |a| > |c| && |b| >= |d| ==> a + b != c + d
    ensures a == c ==> (a + b == c + d <==> b == d)
  {
    if |a| > |c| && |b| >= |d| {
      assert |a + b| > |c + d|;
    }
    if a == c && a + b == c + d {
      assert b == (a + b)[|a|..] == (c + d)[|c|..] == d;
    }
  }

  function CountScores(s: string): nat {
    var pos := Find(s, 0);
    if pos == |s| then 0 else 1 + CountScores(s[pos + 4..])
  }

  /** One insertion per score. */
  lemma {:induction false} OneInsertionPerScore(s: string)
    ensures |Weave(s, |s|)| == |s| + 7 * CountScores(s)
    decreases |s|
  {
    hide Weave, IsOperator, Occurs, LastOperator;
    var pos := Find(s, 0);
    if pos == |s| {
      NoScores(s);
    } else {
      WeaveFirst(s, pos);
      WeaveSplit(s, pos, |s| - (pos + 4));
      OneInsertionPerScore(s[pos + 4..]);
    }
  }

  // ----- The way back, from the result alone -----

  /** Takes the insertions out again. The search for the end of a name starts after the prefix,
      because a name that begins with "mva" forms a new "_mva" with it. */
  function Strip(w: string): string
    decreases |w|
  {
    var p := Find(w, 0);
    if p == |w| then w
    else
      var b := LastOperator(w, p) + 1;
      if |w| < b + 7 || w[b..b + 7] != SIMPLE then w
      else
        var q := Find(w, b + 7);
        if q == |w| then w else w[..b] + w[b + 7..q + 4] + Strip(w[q + 4..])
  }

  /** A woven first segment in front of any text. */
  function Prefixed(s: string, pos: nat, rest: string): string
    requires pos + 4 <= |s|
  {
    s[..FirstStart(s, pos)] + SIMPLE + s[FirstStart(s, pos)..pos + 4] + rest
  }

  lemma PrefixedAt(s: string, pos: nat, rest: string, k: nat)
    requires pos + 4 <= |s|
    ensures var w, start := Prefixed(s, pos, rest), FirstStart(s, pos);
      && |w| == pos + 11 + |rest|
      && (k < start ==> w[k] == s[k])
      && (start <= k < start + 7 ==> w[k] == SIMPLE[k - start])
      && (start + 7 <= k < pos + 11 ==> w[k] == s[k - 7])
  {}

  lemma PrefixHasNoOperator(k: nat)
    requires k < 7
    ensures !IsOperator(SIMPLE[k])
  {
    var c := SIMPLE[k];
    assert c == 's' || c == 'i' || c == 'm' || c == 'p' || c == 'l' || c == 'e' || c == '_';
  }

  /** The woven name holds no operator before its score, and begins after one or at the front. */
  lemma NameOfPrefixed(s: string, pos: nat, rest: string, k: nat)
    requires pos == Find(s, 0) < |s| && k < pos + 7
    ensures var w, start := Prefixed(s, pos, rest), FirstStart(s, pos);
      && |w| == pos + 11 + |rest|
      && (start <= k ==> !IsOperator(w[k]))
      && (k == start - 1 ==> IsOperator(w[k]))
  {
    hide IsOperator, Occurs, Prefixed;
    var start := FirstStart(s, pos);
    PrefixedAt(s, pos, rest, k);
    if start <= k < start + 7 {
      PrefixHasNoOperator(k - start);
    }
  }

  lemma PrefixedParts(s: string, pos: nat, rest: string)
    requires pos + 4 <= |s|
    ensures var w, start := Prefixed(s, pos, rest), FirstStart(s, pos);
      && |w| == pos + 11 + |rest|
      && w[..start] == s[..start]
      && w[start..start + 7] == SIMPLE
      && w[start + 7..pos + 11] == s[start..pos + 4]
      && w[pos + 11..] == rest
  {}

  /** Equal stretches hold their scores at the same places. */
  lemma SameScore(s: string, i: nat, w: string, j: nat, n: nat, k: nat)
    requires i + n <= |s| && j + n <= |w| && k + 4 <= n && s[i..i + n] == w[j..j + n]
    ensures Occurs(s, i + k) <==> Occurs(w, j + k)
  {
    var part := s[i..i + n];
    assert part[k] == s[i + k] && part[k] == w[j + k];
    assert part[k + 1] == s[i + k + 1] && part[k + 1] == w[j + k + 1];
    assert part[k + 2] == s[i + k + 2] && part[k + 2] == w[j + k + 2];
    assert part[k + 3] == s[i + k + 3] && part[k + 3] == w[j + k + 3];
  }

  lemma NoUnderscore(s: string, k: nat)
    requires k < |s| && s[k] != '_'
    ensures !Occurs(s, k)
  {}

  /** No score starts before the '_' of the prefix. */
  lemma NoScoreBeforePrefix(s: string, pos: nat, rest: string, k: nat)
    requires pos == Find(s, 0) < |s| && k < FirstStart(s, pos) + 6
    ensures !Occurs(Prefixed(s, pos, rest), k)
  {
    hide IsOperator, Prefixed, Occurs, Find, LastOperator;
    var w, start := Prefixed(s, pos, rest), FirstStart(s, pos);
    PrefixedAt(s, pos, rest, k);
    PrefixedParts(s, pos, rest);
    if k >= start {
      NoUnderscore(w, k);
    } else if k + 4 <= start {
      NoOccursBefore(s, pos, k);
      SameScore(s, 0, w, 0, start, k);
    } else {
      NameOfPrefixed(s, pos, rest, start - 1);
      OperatorBreaksScore(w, k, start - 1);
    }
  }

  /** The first score after the prefix is the one it was put in front of. */
  lemma ScoreAfterPrefix(s: string, pos: nat, rest: string)
    requires pos == Find(s, 0) < |s|
    ensures var w := Prefixed(s, pos, rest);
      FirstStart(s, pos) + 7 <= |w| && Find(w, FirstStart(s, pos) + 7) == pos + 7 < |w|
  {
    hide IsOperator, Occurs, Prefixed;
    var w, start := Prefixed(s, pos, rest), FirstStart(s, pos);
    PrefixedParts(s, pos, rest);
    forall k | start + 7 <= k <= pos + 7
      ensures Occurs(w, k) <==> k == pos + 7
    {
      SameScore(s, start, w, start + 7, pos + 4 - start, k - 7 - start);
      assert Occurs(s, k - 7) <==> Occurs(w, k);
    }
    assert Occurs(w, pos + 7);
    assert !(start + 7 <= Find(w, start + 7) < pos + 7);
  }

  /** The first score found stands in the woven name, so the name is found from it. */
  lemma FirstScoreOfPrefixed(s: string, pos: nat, rest: string)
    requires pos == Find(s, 0) < |s|
    ensures var w := Prefixed(s, pos, rest);
      Find(w, 0) < |w| && LastOperator(w, Find(w, 0)) + 1 == FirstStart(s, pos)
  {
    hide IsOperator, Occurs, Prefixed;
    var w, start := Prefixed(s, pos, rest), FirstStart(s, pos);
    ScoreAfterPrefix(s, pos, rest);
    var p := Find(w, 0);
    if p < start + 6 {
      NoScoreBeforePrefix(s, pos, rest, p);
    }
    assert start + 6 <= p <= pos + 7;
    forall k | start <= k < pos + 7
      ensures !IsOperator(w[k])
    {
      NameOfPrefixed(s, pos, rest, k);
    }
    if start > 0 {
      NameOfPrefixed(s, pos, rest, start - 1);
    }
  }

  /** Stripping takes the first insertion out and goes on behind the score. */
  lemma StripStep(s: string, pos: nat, rest: string)
    requires pos == Find(s, 0) < |s|
    ensures Strip(Prefixed(s, pos, rest)) == s[..pos + 4] + Strip(rest)
  {
    hide IsOperator, Occurs, Find, LastOperator, FirstStart, Prefixed;
    var w, start := Prefixed(s, pos, rest), FirstStart(s, pos);
    ScoreAfterPrefix(s, pos, rest);
    FirstScoreOfPrefixed(s, pos, rest);
    PrefixedParts(s, pos, rest);
    assert s[..start] + s[start..pos + 4] == s[..pos + 4];
  }

  /** Nothing is lost by the renaming: the input can be read off the woven text. */
  lemma {:induction false} StripWeave(s: string)
    ensures Strip(Weave(s, |s|)) == s
    decreases |s|
  {
    hide Weave, IsOperator, Occurs, LastOperator, Strip;
    var pos := Find(s, 0);
    if pos == |s| {
      NoScores(s);
      StripPlain(s);
    } else {
      var t := s[pos + 4..];
      WeaveFirst(s, pos);
      WeaveSplit(s, pos, |t|);
      StripStep(s, pos, Weave(t, |t|));
      StripWeave(t);
      assert s == s[..pos + 4] + t;
    }
  }

  lemma StripPlain(s: string)
    requires Find(s, 0) == |s|
    ensures Strip(s) == s
  {}

  /** Different clean formulas stay different. */
  lemma RewriteIsInjective(s: string, t: string)
    requires Clean(s) && Clean(t)
    ensures Strip(Rewrite(s)) == s
    ensures Rewrite(s) == Rewrite(t) ==> s == t
  {
    RewriteIsWeaveIff(s);
    RewriteIsWeaveIff(t);
    StripWeave(s);
    StripWeave(t);
  }
}
