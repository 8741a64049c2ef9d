/** Applying a booster: `convertToLibSVM` (hive/src/bdt_train.cxx) gathers the listed entries
    of a tree, `bdt_XGapp` and `super_bdt_app` (hive/src/bdt_app.cxx) spread the scores back
    over all of them. */
module BdtApp {
  import opened Doubles

  datatype Entry = Entry(weight: Double, values: seq<Double>)

  /** One line of the libSVM file. */
  datatype Line = Line(weight: real, features: seq<Double>)

  const MISSING := -999.0

  predicate IsSentinel(x: real) {
    x == -999.0 || x == -9999.0 || x == -99999.0 || x == -99.0 || x == -9.0
  }

  /** Negative and non-finite weights become 1. */
  function SafeWeight(w: Double): real {
    if w.Finite? && w.value >= 0.0 then w.value else 1.0
  }

  /** Every missing-value marker, and not-a-number, becomes -999. */
  function Feature(x: Double): Double {
    if x.NotANumber? || (x.Finite? && IsSentinel(x.value)) then Finite(MISSING) else x
  }

  /** The value y written for x. */
  predicate IsFeature(y: Double, x: Double) {
    match x
    case Infinity => y == Infinity
    case NotANumber => y == Finite(-999.0)
    case Finite(v) =>
      if v == -999.0 || v == -9999.0 || v == -99999.0 || v == -99.0 || v == -9.0 then y == Finite(-999.0) else y == x
  }

  function LineOf(e: Entry): Line {
    Line(SafeWeight(e.weight), seq(|e.values|, t requires 0 <= t < |e.values| => Feature(e.values[t])))
  }

  /** A `TEntryList`: entry numbers in increasing order and a cursor; -1 stands for the end. */
  class EntryList {
    const entries: seq<nat>
    var cursor: nat

    constructor (entries: seq<nat>)
      ensures this.entries == entries
    {
      this.entries := entries;
      cursor := 0;
    }

    method GetEntry(index: nat) returns (entry: int)
      modifies this
      ensures cursor == index
      ensures entry == if index < |entries| then entries[index] else -1
    {
      cursor := index;
      entry := if index < |entries| then entries[index] else -1;
    }

    method Next() returns (entry: int)
      modifies this
      ensures cursor == old(cursor) + 1
      ensures entry == if cursor < |entries| then entries[cursor] else -1
    {
      cursor := cursor + 1;
      entry := if cursor < |entries| then entries[cursor] else -1;
    }
  }

  ghost predicate ValidList(entries: seq<nat>, n: nat) {
    && (forall i :: 0 <= i < |entries| ==> entries[i] < n)
    && forall i, j :: 0 <= i < j < |entries| ==> entries[i] < entries[j]
  }

  method ConvertLine(e: Entry) returns (line: Line)
    ensures line == LineOf(e)
  {
    var wei := if e.weight.Finite? && !(e.weight.value < 0.0) then e.weight.value else 1.0;
    var features: seq<Double> := [];
    for t := 0 to |e.values|
      invariant features == LineOf(e).features[..t]
    {
      var val := e.values[t];
      if !(val.NotANumber? || (val.Finite? && IsSentinel(val.value))) {
        features := features + [val];
      } else {
        features := features + [Finite(MISSING)];
      }
    }
    line := Line(wei, features);
  }

  /** The gather loop: one line per listed entry, in list order. */
  method ConvertToLibSVM(tree: seq<Entry>, list: EntryList) returns (lines: seq<Line>)
    requires ValidList(list.entries, |tree|)
    modifies list
    ensures |lines| == |list.entries|
    ensures forall i :: 0 <= i < |lines| ==> lines[i] == LineOf(tree[list.entries[i]])
    // Written out: weights that are negative, infinite or not a number become 1, and the
    // markers and not-a-number become -999; everything else is copied.
    ensures forall i :: 0 <= i < |lines| ==>
      var e, line := tree[list.entries[i]], lines[i];
      && (e.weight.Finite? && e.weight.value >= 0.0 ==> line.weight == e.weight.value)
      && ((e.weight.Finite? && e.weight.value >= 0.0) || line.weight == 1.0)
      && |line.features| == |e.values|
      && forall t :: 0 <= t < |e.values| ==> IsFeature(line.features[t], e.values[t])
  {
    lines := [];
    var nextEntry := list.GetEntry(0);
    var num := 0;
    while num < |list.entries|
      invariant 0 <= num <= |list.entries| && |lines| == num && list.cursor == num
      invariant nextEntry == if num < |list.entries| then list.entries[num] else -1
      invariant forall i :: 0 <= i < num ==> lines[i] == LineOf(tree[list.entries[i]])
    {
      var line := ConvertLine(tree[nextEntry]);
      lines := lines + [line];
      nextEntry := list.Next();
      num := num + 1;
    }
  }

  const SIZE_MAX := 0xFFFF_FFFF_FFFF_FFFF

  /** `size_t` conversion of an entry number: the end marker becomes the largest value. */
  function ToSize(entry: int): int {
    if entry < 0 then SIZE_MAX else entry
  }

  /** The rows written so far: a score at each listed entry below `upTo`, -999 elsewhere. */
  ghost predicate IsScatter(mva: seq<real>, upTo: nat, entries: seq<nat>, scores: seq<real>)
    requires |scores| == |entries|
  {
    && |mva| == upTo
    && (forall e :: 0 <= e < upTo && e !in entries ==> mva[e] == MISSING)
    && (forall i :: 0 <= i < |entries| && entries[i] < upTo ==> mva[entries[i]] == scores[i])
  }

  lemma AddScore(mva: seq<real>, entries: seq<nat>, scores: seq<real>, i: nat, n: nat)
    requires ValidList(entries, n) && |scores| == |entries| && i < |entries|
    requires IsScatter(mva, entries[i], entries, scores)
    ensures IsScatter(mva + [scores[i]], entries[i] + 1, entries, scores)
  {
    forall k | 0 <= k < |entries| && entries[k] < entries[i] + 1
      ensures (mva + [scores[i]])[entries[k]] == scores[k]
    {
      assert k <= i;
    }
    assert entries[i] in entries;
  }

  /** Entries strictly between two consecutive listed ones are not listed. */
  lemma BetweenListed(entries: seq<nat>, n: nat, i: nat, e: nat)
    requires ValidList(entries, n) && i <= |entries|
    requires (i > 0 ==> entries[i - 1] < e) && (i < |entries| ==> e < entries[i])
    ensures e !in entries
  {
    forall k | 0 <= k < |entries|
      ensures entries[k] != e
    {
      if k < i {
        assert entries[k] <= entries[i - 1];
      } else {
        assert entries[i] <= entries[k];
      }
    }
  }

  lemma AddMissing(mva: seq<real>, entries: seq<nat>, scores: seq<real>, e: nat)
    requires |scores| == |entries| && e !in entries
    requires IsScatter(mva, e, entries, scores)
    ensures IsScatter(mva + [MISSING], e + 1, entries, scores)
  {
    forall k | 0 <= k < |entries| && entries[k] < e + 1
      ensures (mva + [MISSING])[entries[k]] == scores[k]
    {
      assert entries[k] in entries;
    }
  }

  /** The scatter loop of `bdt_XGapp`. */
  method ScatterScores(treeEntries: nat, list: EntryList, scores: seq<real>) returns (mva: seq<real>)
    requires ValidList(list.entries, treeEntries) && |scores| == |list.entries| && treeEntries <= SIZE_MAX
    modifies list
    ensures IsScatter(mva, treeEntries, list.entries, scores)
    ensures |mva| == treeEntries
    ensures forall i :: 0 <= i < |scores| ==> mva[list.entries[i]] == scores[i]
    ensures forall e :: 0 <= e < treeEntries && e !in list.entries ==> mva[e] == -999.0
  {
    ghost var entries := list.entries;
    mva := [];
    assert IsScatter(mva, 0, entries, scores);
    hide IsScatter;
    var haveFilled := 0;
    var first := list.GetEntry(0);
    var workingIndex := ToSize(first);
    for i := 0 to |scores|
      invariant list.cursor == i
      invariant workingIndex == if i < |entries| then entries[i] else SIZE_MAX
      invariant haveFilled == if i == 0 then 0 else entries[i - 1] + 1
      invariant IsScatter(mva, haveFilled, entries, scores)
    {
      while haveFilled < workingIndex
        invariant list.cursor == i
        invariant (if i == 0 then 0 else entries[i - 1] + 1) <= haveFilled <= workingIndex
        invariant IsScatter(mva, haveFilled, entries, scores)
      {
        BetweenListed(entries, treeEntries, i, haveFilled);
        AddMissing(mva, entries, scores, haveFilled);
        mva := mva + [MISSING];
        haveFilled := haveFilled + 1;
      }
      AddScore(mva, entries, scores, i, treeEntries);
      mva := mva + [scores[i]];
      var next := list.Next();
      workingIndex := ToSize(next);
      haveFilled := haveFilled + 1;
    }
    while haveFilled < treeEntries
      invariant (if |entries| == 0 then 0 else entries[|entries| - 1] + 1) <= haveFilled <= treeEntries
      invariant IsScatter(mva, haveFilled, entries, scores)
    {
      BetweenListed(entries, treeEntries, |entries|, haveFilled);
      AddMissing(mva, entries, scores, haveFilled);
      mva := mva + [MISSING];
      haveFilled := haveFilled + 1;
    }
  }

  type Booster = Line -> real

  /** `XGBoosterPredict`, taken as an arbitrary function of each line. */
  function Predict(booster: Booster, lines: seq<Line>): (scores: seq<real>)
    ensures |scores| == |lines|
  {
    seq(|lines|, i requires 0 <= i < |lines| => booster(lines[i]))
  }

  /** Gather, predict, scatter: a pointwise map over the whole tree. */
  method BdtXGApp(tree: seq<Entry>, list: EntryList, booster: Booster) returns (mva: seq<real>)
    requires ValidList(list.entries, |tree|) && |tree| <= SIZE_MAX
    modifies list
    ensures |mva| == |tree|
    ensures forall e :: 0 <= e < |tree| ==> mva[e] == if e in list.entries then booster(LineOf(tree[e])) else MISSING
  {
    var lines := ConvertToLibSVM(tree, list);
    var scores := Predict(booster, lines);
    mva := ScatterScores(|tree|, list, scores);
    forall e | 0 <= e < |tree|
      ensures mva[e] == if e in list.entries then booster(LineOf(tree[e])) else MISSING
    {
      if e in list.entries {
        var i :| 0 <= i < |list.entries| && list.entries[i] == e;
        assert mva[list.entries[i]] == scores[i];
      }
    }
  }

  // ----- The super BDT -----

  /** A row of the skimmed tree, and a row of the merged output. */
  datatype Skimmed = Skimmed(originalEntry: int, vars: seq<real>)
  datatype Merged = Merged(score: real, vars: seq<real>)

  type Evaluator = seq<real> -> real

  ghost predicate HasWidth(skim: seq<Skimmed>, width: nat) {
    forall l :: 0 <= l < |skim| ==> |skim[l].vars| == width
  }

  function Originals(skim: seq<Skimmed>): (originals: seq<int>)
    ensures |originals| == |skim|
  {
    seq(|skim|, l requires 0 <= l < |skim| => skim[l].originalEntry)
  }

  ghost predicate IsAscending(originals: seq<int>, p: nat)
    requires p <= |originals|
  {
    && (forall l :: 0 <= l < p ==> originals[l] >= 0)
    && (forall l, m :: 0 <= l < m < p ==> originals[l] < originals[m])
  }

  /** How many rows are merged: the rest stands behind a row whose entry has been passed. */
  function Ascending(originals: seq<int>): (p: nat)
    ensures p <= |originals|
    ensures IsAscending(originals, p)
    ensures p < |originals| ==> originals[p] < 0 || (p > 0 && originals[p] <= originals[p - 1])
  {
    if originals == [] then 0
    else
      var n := |originals| - 1;
      var p := Ascending(originals[..n]);
      if p < n || originals[n] < 0 || (n > 0 && originals[n] <= originals[n - 1]) then p else n + 1
  }

  function Nothing(width: nat): seq<real> {
    seq(width, _ => -1.0)
  }

  /** The last of the given rows that belongs to entry i, or the defaults. */
  function RowFor(rows: seq<Skimmed>, i: int, width: nat, eval: Evaluator): Merged {
    if rows == [] then Merged(-1.0, Nothing(width))
    else
      var row := rows[|rows| - 1];
      if row.originalEntry == i then Merged(eval(row.vars), row.vars) else RowFor(rows[..|rows| - 1], i, width, eval)
  }

  /** What is written for entry i. An empty skim has its default values evaluated for entry 0. */
  function RowOf(skim: seq<Skimmed>, i: int, width: nat, eval: Evaluator): Merged {
    if skim == [] && i == 0 then Merged(eval(Nothing(width)), Nothing(width))
    else RowFor(skim[..Ascending(Originals(skim))], i, width, eval)
  }

  /** The merged rows in terms of the skim. */
  lemma MergedRows(skim: seq<Skimmed>)
    ensures var p := Ascending(Originals(skim));
      && p <= |skim|
      && (forall l :: 0 <= l < p ==> skim[l].originalEntry >= 0)
      && (forall l, m :: 0 <= l < m < p ==> skim[l].originalEntry < skim[m].originalEntry)
      && (p < |skim| ==> skim[p].originalEntry < 0 || (p > 0 && skim[p].originalEntry <= skim[p - 1].originalEntry))
  {
    hide Ascending;
    var originals := Originals(skim);
    assert forall l :: 0 <= l < |skim| ==> originals[l] == skim[l].originalEntry;
  }

  lemma {:induction false} RowForMeaning(rows: seq<Skimmed>, i: int, width: nat, eval: Evaluator)
    requires forall l, m :: 0 <= l < m < |rows| ==> rows[l].originalEntry != rows[m].originalEntry
    ensures RowIsRight(RowFor(rows, i, width, eval), i, rows, width, eval)
  {
    if rows != [] {
      RowForMeaning(rows[..|rows| - 1], i, width, eval);
    }
  }

  /** Row i of the output should hold every skimmed row of original entry i, or the defaults. */
  ghost predicate RowIsRight(row: Merged, i: int, skim: seq<Skimmed>, width: nat, eval: Evaluator) {
    (forall l :: 0 <= l < |skim| && skim[l].originalEntry == i ==> row == Merged(eval(skim[l].vars), skim[l].vars))
    && ((forall l :: 0 <= l < |skim| ==> skim[l].originalEntry != i) ==> row == Merged(-1.0, Nothing(width)))
  }

  lemma MergedRow(skim: seq<Skimmed>, l: nat, width: nat, eval: Evaluator)
    requires l < Ascending(Originals(skim))
    ensures RowOf(skim, skim[l].originalEntry, width, eval) == Merged(eval(skim[l].vars), skim[l].vars)
  {
    hide Ascending, Originals;
    MergedRows(skim);
    var rows := skim[..Ascending(Originals(skim))];
    RowForMeaning(rows, skim[l].originalEntry, width, eval);
    assert rows[l] == skim[l];
  }

  lemma DefaultRow(skim: seq<Skimmed>, i: nat, width: nat, eval: Evaluator)
    requires skim != [] || i > 0
    requires forall l :: 0 <= l < Ascending(Originals(skim)) ==> skim[l].originalEntry != i
    ensures RowOf(skim, i, width, eval) == Merged(-1.0, Nothing(width))
  {
    hide Ascending, Originals;
    MergedRows(skim);
    RowForMeaning(skim[..Ascending(Originals(skim))], i, width, eval);
  }

  /** The merge loop. `GetEntry` past the end leaves the branch variables as they are. */
  method SuperBdtApp(skim: seq<Skimmed>, totalEvents: nat, width: nat, eval: Evaluator) returns (out: seq<Merged>)
    requires HasWidth(skim, width)
    ensures |out| == totalEvents
    ensures forall i :: 0 <= i < totalEvents ==> out[i] == RowOf(skim, i, width, eval)
    // The rows up to the first that does not ascend, each at its entry ...
    ensures forall l :: 0 <= l < Ascending(Originals(skim)) && 0 <= skim[l].originalEntry < totalEvents ==>
      out[skim[l].originalEntry] == Merged(eval(skim[l].vars), skim[l].vars)
    // ... and -1 everywhere at the other entries, evaluated at entry 0 of an empty skim.
    ensures forall i :: 0 <= i < totalEvents
                        && (forall l :: 0 <= l < Ascending(Originals(skim)) ==> skim[l].originalEntry != i) ==>
      && |out[i].vars| == width && (forall j :: 0 <= j < width ==> out[i].vars[j] == -1.0)
      && out[i].score == if skim == [] && i == 0 then eval(out[i].vars) else -1.0
  {
    MergedRows(skim);
    ghost var p := Ascending(Originals(skim));
    hide Ascending, Originals, RowFor;
    out := [];
    var originalEntry, vars := 0, Nothing(width);
    var mva := -1.0;
    var l := 0;
    if l < |skim| {
      originalEntry, vars := skim[l].originalEntry, skim[l].vars;
    }
    var cntr := originalEntry;
    for i := 0 to totalEvents
      invariant |out| == i && l <= p
      invariant l < |skim| ==> cntr == skim[l].originalEntry && (l < p ==> i <= cntr) && (l == p ==> cntr < i)
      invariant l == |skim| && skim != [] ==> cntr < i
      invariant skim == [] ==> cntr == 0 && (i == 0 ==> vars == Nothing(width))
      invariant forall m :: 0 <= m < l ==> skim[m].originalEntry < i
      invariant forall k :: 0 <= k < i ==> out[k] == RowOf(skim, k, width, eval)
    {
      if cntr == i {
        if l < |skim| {
          originalEntry, vars := skim[l].originalEntry, skim[l].vars;
          MergedRow(skim, l, width, eval);
        }
        mva := eval(vars);
        out := out + [Merged(mva, vars)];
        if l + 1 > |skim| {
          continue;
        }
        if l + 1 < |skim| {
          originalEntry, vars := skim[l + 1].originalEntry, skim[l + 1].vars;
        }
        cntr := originalEntry;
        l := l + 1;
      } else {
        DefaultRow(skim, i, width, eval);
        mva := -1.0;
        vars := Nothing(width);
        out := out + [Merged(mva, vars)];
      }
    }
    RowsWrittenOut(skim, width, eval);
  }

  lemma RowsWrittenOut(skim: seq<Skimmed>, width: nat, eval: Evaluator)
    ensures forall l :: 0 <= l < Ascending(Originals(skim)) ==>
              RowOf(skim, skim[l].originalEntry, width, eval) == Merged(eval(skim[l].vars), skim[l].vars)
    ensures forall i: nat :: (forall l :: 0 <= l < Ascending(Originals(skim)) ==> skim[l].originalEntry != i) ==>
              var row := RowOf(skim, i, width, eval);
              && |row.vars| == width && (forall j :: 0 <= j < width ==> row.vars[j] == -1.0)
              && row.score == if skim == [] && i == 0 then eval(row.vars) else -1.0
  {
    hide Ascending, Originals;
    MergedRows(skim);
    forall l | 0 <= l < Ascending(Originals(skim))
      ensures RowOf(skim, skim[l].originalEntry, width, eval) == Merged(eval(skim[l].vars), skim[l].vars)
    {
      MergedRow(skim, l, width, eval);
    }
    forall i: nat | forall l :: 0 <= l < Ascending(Originals(skim)) ==> skim[l].originalEntry != i
      ensures var row := RowOf(skim, i, width, eval);
        && |row.vars| == width && (forall j :: 0 <= j < width ==> row.vars[j] == -1.0)
        && row.score == if skim == [] && i == 0 then eval(row.vars) else -1.0
    {
      if skim != [] || i > 0 {
        DefaultRow(skim, i, width, eval);
      }
    }
  }

  ghost predicate OutputIsRight(skim: seq<Skimmed>, totalEvents: nat, width: nat, eval: Evaluator) {
    forall i :: 0 <= i < totalEvents ==> RowIsRight(RowOf(skim, i, width, eval), i, skim, width, eval)
  }

  /** A skim with the given entry numbers, one BDT and a different value in each row. */
  function Numbered(originals: seq<int>): (skim: seq<Skimmed>)
    ensures Originals(skim) == originals
  {
    seq(|originals|, l requires 0 <= l < |originals| => Skimmed(originals[l], [l as real]))
  }

  /** Whatever the values and the evaluator are. */
  ghost predicate AlwaysRight(originals: seq<int>, totalEvents: nat) {
    forall skim, width, eval :: Originals(skim) == originals && HasWidth(skim, width) ==>
      OutputIsRight(skim, totalEvents, width, eval)
  }

  /** The output is always right exactly when the skim is not empty, or there are no events, and
      every row behind the first one that does not ascend belongs to no event. */
  lemma OutputIsRightIff(originals: seq<int>, totalEvents: nat)
    ensures AlwaysRight(originals, totalEvents)
       <==> ((originals != [] || totalEvents == 0)
             && forall l :: Ascending(originals) <= l < |originals| ==> !(0 <= originals[l] < totalEvents))
  {
    hide Ascending, RowIsRight, RowOf, AlwaysRight, Originals;
    if originals == [] {
      EmptySkim(totalEvents);
    } else if l :| Ascending(originals) <= l < |originals| && 0 <= originals[l] < totalEvents {
      LaterRowIsLost(originals, totalEvents, l);
    } else {
      MergedRowsAreRight(originals, totalEvents);
    }
  }

  lemma MergedRowsAreRight(originals: seq<int>, totalEvents: nat)
    requires originals != []
    requires forall l :: Ascending(originals) <= l < |originals| ==> !(0 <= originals[l] < totalEvents)
    ensures AlwaysRight(originals, totalEvents)
  {
    hide Ascending, RowIsRight, RowOf;
    forall skim: seq<Skimmed>, width, eval: Evaluator, i |
      Originals(skim) == originals && HasWidth(skim, width) && 0 <= i < totalEvents
      ensures RowIsRight(RowOf(skim, i, width, eval), i, skim, width, eval)
    {
      forall l | Ascending(originals) <= l < |skim|
        ensures skim[l].originalEntry != i
      {
        assert originals[l] == skim[l].originalEntry;
      }
      PrefixIsEnough(skim, i, width, eval);
    }
  }

  /** The failing input: the row of entry 0 stands behind that of entry 1. */
  lemma DescendingRowIsLost()
    ensures !AlwaysRight([1, 0], 2)
  {
    hide AlwaysRight;
    OutputIsRightIff([1, 0], 2);
    assert Ascending([1, 0]) <= 1;
  }

  /** For one evaluator: the empty skim is harmless exactly when the defaults evaluate to -1. */
  lemma EmptySkimIff(totalEvents: nat, width: nat, eval: Evaluator)
    ensures OutputIsRight([], totalEvents, width, eval) <==> totalEvents == 0 || eval(Nothing(width)) == -1.0
  {
    if totalEvents > 0 {
      assert RowIsRight(RowOf([], 0, width, eval), 0, [], width, eval) <==> eval(Nothing(width)) == -1.0;
    }
  }

  lemma EmptySkim(totalEvents: nat)
    ensures AlwaysRight([], totalEvents) <==> totalEvents == 0
  {
    if totalEvents > 0 {
      var eval := (v: seq<real>) => 0.0;
      EmptySkimIff(totalEvents, 0, eval);
      assert Originals([]) == [] && HasWidth([], 0);
    }
  }

  lemma PrefixIsEnough(skim: seq<Skimmed>, i: nat, width: nat, eval: Evaluator)
    requires skim != []
    requires forall l :: Ascending(Originals(skim)) <= l < |skim| ==> skim[l].originalEntry != i
    ensures RowIsRight(RowOf(skim, i, width, eval), i, skim, width, eval)
  {
    hide Ascending;
    MergedRows(skim);
    var rows := skim[..Ascending(Originals(skim))];
    RowForMeaning(rows, i, width, eval);
    if forall l :: 0 <= l < |skim| ==> skim[l].originalEntry != i {
      forall l | 0 <= l < |rows|
        ensures rows[l].originalEntry != i
      {
        assert rows[l] == skim[l];
      }
    }
  }

  lemma LaterRowIsLost(originals: seq<int>, totalEvents: nat, l: nat)
    requires Ascending(originals) <= l < |originals| && 0 <= originals[l] < totalEvents
    ensures !AlwaysRight(originals, totalEvents)
  {
    hide Ascending;
    var skim, eval := Numbered(originals), (v: seq<real>) => 0.0;
    var rows := skim[..Ascending(originals)];
    RowForIsListed(rows, originals[l], 1, eval);
    assert skim[l] == Skimmed(originals[l], [l as real]);
    var row := RowOf(skim, originals[l], 1, eval);
    assert row != Merged(eval(skim[l].vars), skim[l].vars);
    assert !RowIsRight(row, originals[l], skim, 1, eval);
    assert !OutputIsRight(skim, totalEvents, 1, eval);
    assert HasWidth(skim, 1);
  }

  lemma {:induction false} RowForIsListed(rows: seq<Skimmed>, i: int, width: nat, eval: Evaluator)
    ensures var row := RowFor(rows, i, width, eval);
      || row == Merged(-1.0, Nothing(width))
      || exists l :: 0 <= l < |rows| && row == Merged(eval(rows[l].vars), rows[l].vars)
  {
    if rows != [] {
      RowForIsListed(rows[..|rows| - 1], i, width, eval);
    }
  }
}
