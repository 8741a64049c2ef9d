/** Flattening of event trees (hive/src/bdt_file.cxx): `MakeFlatTree` writes one row per
    candidate, `MakeFlatFriend` a matching friend, and `MakeUnFlatTree` gathers candidate
    scores back into one vector per original event. */
module FlatTree {
  import opened Doubles

  /** One event: whether the filter (and the training veto) keep it, the declared number of
      candidates, its scalar values, the vector values of each candidate, its weight and the
      values of the two cut formulas. */
  datatype Event = Event(kept: bool, declared: nat, scalars: seq<real>, candidates: seq<seq<real>>,
                         weight: real, definition: real, preselection: real) {
    /** `std::min(num_candidates, GetLength())` */
    function Count(): (c: nat)
      ensures c <= declared && c <= |candidates| && (c == declared || c == |candidates|)
    {
      if declared < |candidates| then declared else |candidates|
    }
  }

  datatype Row = Row(origEvent: nat, inside: int, branch: seq<real>, tags: Tags)

  /** The event branches repeated on every row of the event. */
  datatype Tags = Tags(weight: real, potWeight: real, definition: int, preselection: int)

  type Pot = p: real | p > 0.0 witness 1.0

  /** The number of vector variables, and what the weights are scaled with. */
  datatype FileInfo = FileInfo(width: nat, scaleData: real, pot: Pot)

  const PLOT_POT := 691_000_000_000_000_000_000.0

  function TagsOf(e: Event, file: FileInfo): Tags {
    Tags(e.weight, e.weight * file.scaleData * PLOT_POT / file.pot, Truncate(e.definition), Truncate(e.preselection))
  }

  // ----- Flattening -----

  function CandidateRow(e: Event, index: nat, j: nat, file: FileInfo): Row
    requires j < e.Count()
  {
    Row(index, j, e.scalars + e.candidates[j], TagsOf(e, file))
  }

  /** The rows of the first j candidates. */
  function CandidateRows(e: Event, index: nat, j: nat, file: FileInfo): (rows: seq<Row>)
    requires j <= e.Count()
    ensures |rows| == j
  {
    seq(j, k requires 0 <= k < j => CandidateRow(e, index, k, file))
  }

  function RowsOf(e: Event, index: nat, file: FileInfo): seq<Row> {
    if !e.kept then []
    else if e.Count() == 0 then [Row(index, -1, e.scalars + seq(file.width, _ => -1.0), TagsOf(e, file))]
    else CandidateRows(e, index, e.Count(), file)
  }

  function Flat(events: seq<Event>, file: FileInfo): seq<Row> {
    if events == [] then []
    else
      var n := |events| - 1;
      Flat(events[..n], file) + RowsOf(events[n], n, file)
  }

  method MakeFlatTree(events: seq<Event>, file: FileInfo) returns (rows: seq<Row>)
    ensures rows == Flat(events, file)
  {
    rows := [];
    for i := 0 to |events|
      invariant rows == Flat(events[..i], file)
    {
      var e := events[i];
      assert events[..i + 1][..i] == events[..i];
      if !e.kept {
        continue;
      }
      if e.Count() == 0 {
        rows := rows + [Row(i, -1, e.scalars + seq(file.width, _ => -1.0), TagsOf(e, file))];
        continue;
      }
      ghost var before := rows;
      for j := 0 to e.Count()
        invariant rows == before + CandidateRows(e, i, j, file)
      {
        rows := rows + [CandidateRow(e, i, j, file)];
      }
    }
    assert events[..|events|] == events;
  }

  // ----- What the rows hold -----

  /** Every row in terms of the event it stands for: the variables of one candidate, or -1 for
      each where there is none; the weights; and the integer parts of the two cut values. */
  lemma {:induction false} RowHolds(events: seq<Event>, file: FileInfo, k: nat)
    requires k < |Flat(events, file)|
    ensures var r := Flat(events, file)[k];
      && r.origEvent < |events| && events[r.origEvent].kept
      && var e := events[r.origEvent];
      && (r.inside >= 0 ==> r.inside < e.declared && r.inside < |e.candidates|
                            && r.branch == e.scalars + e.candidates[r.inside])
      && (r.inside < 0 ==> r.inside == -1 && (e.declared == 0 || e.candidates == [])
                           && |r.branch| == |e.scalars| + file.width && r.branch[..|e.scalars|] == e.scalars
                           && forall b :: |e.scalars| <= b < |r.branch| ==> r.branch[b] == -1.0)
      && r.tags.weight == e.weight
      && r.tags.potWeight * file.pot == e.weight * file.scaleData * 691_000_000_000_000_000_000.0
      && IsWholePart(r.tags.definition, e.definition) && IsWholePart(r.tags.preselection, e.preselection)
  {
    var n := |events| - 1;
    var front := Flat(events[..n], file);
    if k < |front| {
      RowHolds(events[..n], file, k);
    } else {
      var e := events[n];
      PotWeightHolds(e, file);
    }
  }

  lemma PotWeightHolds(e: Event, file: FileInfo)
    ensures TagsOf(e, file).potWeight * file.pot == e.weight * file.scaleData * 691_000_000_000_000_000_000.0
  {}

  /** The rows are in the order of the events and their candidates, none twice. */
  lemma {:induction false} RowsAscend(events: seq<Event>, file: FileInfo, k: nat, l: nat)
    requires k < l < |Flat(events, file)|
    ensures var r, s := Flat(events, file)[k], Flat(events, file)[l];
      r.origEvent < s.origEvent || (r.origEvent == s.origEvent && 0 <= r.inside < s.inside)
  {
    var n := |events| - 1;
    var front := Flat(events[..n], file);
    if l < |front| {
      RowsAscend(events[..n], file, k, l);
    } else if k < |front| {
      RowHolds(events[..n], file, k);
    }
  }

  /** Every candidate of a kept event has its row, and an event without any its placeholder. */
  lemma {:induction false} RowExists(events: seq<Event>, file: FileInfo, i: nat, j: int)
    requires i < |events| && events[i].kept
    requires if j >= 0 then j < events[i].declared && j < |events[i].candidates|
             else j == -1 && (events[i].declared == 0 || events[i].candidates == [])
    ensures exists k :: 0 <= k < |Flat(events, file)|
                        && Flat(events, file)[k].origEvent == i && Flat(events, file)[k].inside == j
  {
    var n := |events| - 1;
    var front := Flat(events[..n], file);
    if i < n {
      RowExists(events[..n], file, i, j);
      var k :| 0 <= k < |front| && front[k].origEvent == i && front[k].inside == j;
      assert Flat(events, file)[k] == front[k];
    } else {
      var k := |front| + if j >= 0 then j else 0;
      assert Flat(events, file)[k] == RowsOf(events[n], n, file)[k - |front|];
    }
  }

  // ----- Gathering the scores -----

  /** `last_event_index`, `out_score` and the entries filled so far. */
  datatype Gather = Gather(last: nat, pending: seq<real>, written: seq<seq<real>>)

  /** The score of a row, from the event and candidate it stands for and its variables. */
  type Score = (nat, int, seq<real>) -> real

  function Step(s: Gather, row: Row, score: Score): Gather {
    var t := if s.last < row.origEvent then Gather(s.last + 1, [], s.written + [s.pending]) else s;
    if row.inside == -1 then t else t.(pending := t.pending + [score(row.origEvent, row.inside, row.branch)])
  }

  function Run(s: Gather, rows: seq<Row>, score: Score): Gather {
    if rows == [] then s
    else Step(Run(s, rows[..|rows| - 1], score), rows[|rows| - 1], score)
  }

  const START := Gather(0, [], [])

  /** The last entry is filled, then empty ones up to the original number of events. */
  function TopUp(s: Gather, total: nat): seq<seq<real>> {
    s.written + [s.pending] + seq(if s.last + 1 < total then total - (s.last + 1) else 0, _ => [])
  }

  function Unflat(rows: seq<Row>, score: Score, total: nat): seq<seq<real>> {
    TopUp(Run(START, rows, score), total)
  }

  method MakeUnFlatTree(rows: seq<Row>, score: Score, total: nat) returns (out: seq<seq<real>>)
    ensures out == Unflat(rows, score, total)
  {
    var outScore: seq<real> := [];
    var last := 0;
    out := [];
    for i := 0 to |rows|
      invariant Gather(last, outScore, out) == Run(START, rows[..i], score)
    {
      assert rows[..i + 1][..i] == rows[..i];
      if last < rows[i].origEvent {
        out := out + [outScore];
        last := last + 1;
        outScore := [];
      }
      if rows[i].inside == -1 {
        continue;
      }
      outScore := outScore + [score(rows[i].origEvent, rows[i].inside, rows[i].branch)];
    }
    assert rows[..|rows|] == rows;
    out := out + [outScore];
    last := last + 1;
    outScore := [];
    ghost var filled, base := last, out;
    while last < total
      invariant filled <= last && (last <= total || last == filled)
      invariant out == base + seq(last - filled, _ => [])
    {
      out := out + [outScore];
      last := last + 1;
    }
  }

  // ----- The round trip -----

  /** The scores an event should end up with: those of its candidates, each from the scalar
      variables of the event and the variables of the candidate. */
  function Scores(e: Event, index: nat, score: Score): seq<real> {
    if e.kept then CandidateScores(e, index, e.Count(), score) else []
  }

  function CandidateScores(e: Event, index: nat, j: nat, score: Score): (scores: seq<real>)
    requires j <= e.Count()
    ensures |scores| == j
  {
    seq(j, k requires 0 <= k < j => score(index, k, e.scalars + e.candidates[k]))
  }

  function Expected(events: seq<Event>, score: Score): (x: seq<seq<real>>)
    ensures |x| == |events|
  {
    seq(|events|, i requires 0 <= i < |events| => Scores(events[i], i, score))
  }

  /** Something the caller can check beforehand: no kept event with candidates comes after a
      dropped event other than the very first one. */
  ghost predicate NoGaps(events: seq<Event>) {
    forall i, k :: 1 <= i < k < |events| && !events[i].kept ==> !events[k].kept || events[k].Count() == 0
  }

  ghost predicate NoDrops(events: seq<Event>) {
    forall i :: 1 <= i < |events| ==> events[i].kept
  }

  /** The vectors in the order they will be in the file, including the pending one. */
  function All(s: Gather): seq<seq<real>> {
    s.written + [s.pending]
  }

  lemma {:induction false} RunConcat(s: Gather, left: seq<Row>, right: seq<Row>, score: Score)
    ensures Run(s, left + right, score) == Run(Run(s, left, score), right, score)
  {
    if right == [] {
      assert left + right == left;
    } else {
      var n := |right| - 1;
      assert (left + right)[..|left + right| - 1] == left + right[..n];
      RunConcat(s, left, right[..n], score);
    }
  }

  /** The entries so far are those expected, and what is not written yet is empty. */
  ghost predicate Good(s: Gather, x: seq<seq<real>>, done: nat)
    requires done <= |x|
  {
    && |s.written| == s.last
    && (done == 0 ==> s == START)
    && (done > 0 ==> s.last < done && All(s) == x[..s.last + 1] && forall i :: s.last < i < done ==> x[i] == [])
  }

  /** Some entry holds scores that belong to another event. */
  ghost predicate Misplaced(s: Gather, x: seq<seq<real>>) {
    exists p :: 0 <= p < |x| && p < |All(s)| && All(s)[p] != [] && x[p] == []
  }

  lemma MisplacedForever(s: Gather, x: seq<seq<real>>, row: Row, score: Score)
    requires Misplaced(s, x)
    ensures Misplaced(Step(s, row, score), x)
  {
    var p :| 0 <= p < |x| && p < |All(s)| && All(s)[p] != [] && x[p] == [];
    var t := Step(s, row, score);
    assert All(t)[p] != [];
  }

  lemma {:induction false} MisplacedForeverRun(s: Gather, x: seq<seq<real>>, rows: seq<Row>, score: Score)
    requires Misplaced(s, x)
    ensures Misplaced(Run(s, rows, score), x)
  {
    if rows != [] {
      var n := |rows| - 1;
      MisplacedForeverRun(s, x, rows[..n], score);
      MisplacedForever(Run(s, rows[..n], score), x, rows[n], score);
    }
  }

  /** Rows of the event whose vector is pending are appended to it. */
  lemma {:induction false} SameEventRows(s: Gather, e: Event, index: nat, j: nat, file: FileInfo, score: Score)
    requires e.kept && j <= e.Count() && 0 < j
    requires s.last == index || s.last + 1 == index
    ensures var own := CandidateScores(e, index, j, score);
      Run(s, CandidateRows(e, index, j, file), score)
      == if s.last == index then s.(pending := s.pending + own) else Gather(index, own, All(s))
  {
    var rows, own := CandidateRows(e, index, j, file), CandidateScores(e, index, j, score);
    assert rows[..j - 1] == CandidateRows(e, index, j - 1, file);
    assert own == CandidateScores(e, index, j - 1, score) 
         + [score(rows[j - 1].origEvent, rows[j - 1].inside, rows[j - 1].branch)];
    if j == 1 {
      assert Run(s, rows[..0], score) == s;
    } else {
      SameEventRows(s, e, index, j - 1, file, score);
    }
  }

  /** An event without candidates, or a dropped one, advances the file by at most one empty entry. */
  lemma QuietEvent(s: Gather, e: Event, m: nat, file: FileInfo, score: Score, x: seq<seq<real>>)
    requires m < |x| && Good(s, x, m) && x[m] == Scores(e, m, score)
    requires !e.kept || e.Count() == 0
    ensures var t := Run(s, RowsOf(e, m, file), score);
      Good(t, x, m + 1) && t.last == if e.kept && m > 0 then s.last + 1 else s.last
  {
    var rows := RowsOf(e, m, file);
    if e.kept {
      assert rows[..0] == [];
      assert Run(s, rows, score) == Step(s, rows[0], score);
    }
    assert x[m] == [];
    var t := Run(s, rows, score);
    if m > 0 && e.kept {
      assert All(t) == All(s) + [[]];
      assert x[..t.last + 1] == x[..s.last + 1] + [x[t.last]];
    } else if m == 0 {
      assert x[..1] == [x[0]];
    }
  }

  /** An event with candidates lands in its own entry when the file is up to date. */
  lemma AlignedEvent(s: Gather, e: Event, m: nat, file: FileInfo, score: Score, x: seq<seq<real>>)
    requires m < |x| && Good(s, x, m) && x[m] == Scores(e, m, score)
    requires e.kept && e.Count() > 0 && (m == 0 || s.last == m - 1)
    ensures var t := Run(s, RowsOf(e, m, file), score);
      Good(t, x, m + 1) && t.last == m
  {
    SameEventRows(s, e, m, e.Count(), file, score);
    hide CandidateRow, CandidateRows, Run;
    var t := Run(s, RowsOf(e, m, file), score);
    assert t.pending == x[m];
    if m == 0 {
      assert x[..1] == [x[0]];
    } else {
      assert All(t) == All(s) + [x[m]];
      assert x[..m + 1] == x[..m] + [x[m]];
    }
  }

  /** Otherwise its first score goes to an entry that should be empty. */
  lemma LateEvent(s: Gather, e: Event, m: nat, file: FileInfo, score: Score, x: seq<seq<real>>)
    requires 0 < m < |x| && Good(s, x, m)
    requires e.kept && e.Count() > 0 && s.last < m - 1
    ensures Misplaced(Run(s, RowsOf(e, m, file), score), x)
  {
    var rows := RowsOf(e, m, file);
    assert rows == [rows[0]] + rows[1..];
    RunConcat(s, [rows[0]], rows[1..], score);
    var t := Step(s, rows[0], score);
    assert [rows[0]][..0] == [];
    assert Run(s, [rows[0]], score) == t;
    assert All(t)[s.last + 1] != [] && x[s.last + 1] == [];
    MisplacedForeverRun(t, x, rows[1..], score);
  }

  lemma GapsGrow(events: seq<Event>, m: nat)
    requires m < |events|
    ensures NoGaps(events[..m + 1])
       <==> NoGaps(events[..m]) && (NoDrops(events[..m]) || !events[m].kept || events[m].Count() == 0)
    ensures NoDrops(events[..m + 1]) <==> NoDrops(events[..m]) && (m == 0 || events[m].kept)
  {
    var before, after := events[..m], events[..m + 1];
    assert after == before + [events[m]];
    if NoGaps(after) {
      assert NoGaps(before) by {
        forall i, k | 1 <= i < k < |before| && !before[i].kept
          ensures !before[k].kept || before[k].Count() == 0
        {
          assert after[i] == before[i] && after[k] == before[k];
        }
      }
      if !NoDrops(before) {
        var i :| 1 <= i < m && !before[i].kept;
        assert after[i] == before[i] && after[m] == events[m];
      }
    }
    if NoDrops(after) {
      forall i | 1 <= i < m
        ensures before[i].kept
      {
        assert after[i] == before[i];
      }
      assert after[m] == events[m];
    }
  }

  /** What the gathering loop has reached after the rows of the first m events. */
  lemma {:induction false} AfterEvents(events: seq<Event>, file: FileInfo, score: Score, m: nat)
    requires m <= |events|
    ensures var s, x := Run(START, Flat(events[..m], file), score), Expected(events, score);
      if NoGaps(events[..m]) then
        Good(s, x, m) && (m > 0 ==> (s.last == m - 1 <==> NoDrops(events[..m])))
      else
        Misplaced(s, x)
  {
    var x := Expected(events, score);
    if m > 0 {
      var k := m - 1;
      var e := events[k];
      AfterEvents(events, file, score, k);
      GapsGrow(events, k);
      var s := Run(START, Flat(events[..k], file), score);
      AfterEvent(events, file, score, k, s);
      GoodLast(s, x, k);
      hide *;
      if !NoGaps(events[..k]) {
        MisplacedForeverRun(s, x, RowsOf(e, k, file), score);
      } else if !e.kept || e.Count() == 0 {
        QuietEvent(s, e, k, file, score, x);
      } else if k == 0 || s.last == k - 1 {
        AlignedEvent(s, e, k, file, score, x);
      } else {
        LateEvent(s, e, k, file, score, x);
      }
    }
  }

  lemma AfterEvent(events: seq<Event>, file: FileInfo, score: Score, k: nat, s: Gather)
    requires k < |events| && s == Run(START, Flat(events[..k], file), score)
    ensures Run(START, Flat(events[..k + 1], file), score) == Run(s, RowsOf(events[k], k, file), score)
    ensures Expected(events, score)[k] == Scores(events[k], k, score)
  {
    assert events[..k + 1][..k] == events[..k];
    RunConcat(START, Flat(events[..k], file), RowsOf(events[k], k, file), score);
  }

  lemma GoodLast(s: Gather, x: seq<seq<real>>, done: nat)
    requires done <= |x|
    ensures Good(s, x, done) && done > 0 ==> s.last < done
    ensures Good(s, x, done) && done == 0 ==> s.last == 0
  {}

  /** Unflattening a flattened file, with any score per row, restores one vector per original
      event exactly when the file has an event and the filter left no gap before scores. */
  lemma RoundTrip(events: seq<Event>, file: FileInfo, score: Score)
    ensures Unflat(Flat(events, file), score, |events|) == Expected(events, score)
       <==> events != [] && NoGaps(events)
  {
    var n := |events|;
    var x := Expected(events, score);
    var s := Run(START, Flat(events, file), score);
    assert Unflat(Flat(events, file), score, n) == TopUp(s, n);
    AfterEvents(events, file, score, n);
    assert events[..n] == events;
    hide *;
    if n == 0 {
      TopUpLength(s, n);
    } else if NoGaps(events) {
      GoodIsComplete(s, x);
    } else {
      MisplacedStays(s, x);
    }
  }

  lemma TopUpLength(s: Gather, total: nat)
    ensures |TopUp(s, total)| > 0
  {}

  lemma GoodIsComplete(s: Gather, x: seq<seq<real>>)
    requires x != [] && Good(s, x, |x|)
    ensures TopUp(s, |x|) == x
  {}

  lemma MisplacedStays(s: Gather, x: seq<seq<real>>)
    requires Misplaced(s, x)
    ensures TopUp(s, |x|) != x
  {
    var p :| 0 <= p < |x| && p < |All(s)| && All(s)[p] != [] && x[p] == [];
    assert TopUp(s, |x|)[p] == All(s)[p];
  }

  // ----- Nothing is lost -----

  function Joined(vectors: seq<seq<real>>): seq<real> {
    if vectors == [] then [] else Joined(vectors[..|vectors| - 1]) + vectors[|vectors| - 1]
  }

  /** The scores of the rows that stand for a candidate, in row order. */
  function RowScores(rows: seq<Row>, score: Score): seq<real> {
    if rows == [] then []
    else
      var front, r := rows[..|rows| - 1], rows[|rows| - 1];
      if r.inside == -1 then RowScores(front, score)
      else RowScores(front, score) + [score(r.origEvent, r.inside, r.branch)]
  }

  lemma JoinedAppend(vectors: seq<seq<real>>, last: seq<real>)
    ensures Joined(vectors + [last]) == Joined(vectors) + last
  {
    assert (vectors + [last])[..|vectors|] == vectors;
  }

  lemma {:induction false} JoinedEmpty(vectors: seq<seq<real>>, n: nat)
    ensures Joined(vectors + seq(n, _ => [])) == Joined(vectors)
  {
    if n == 0 {
      assert vectors + seq(n, _ => []) == vectors;
    } else {
      JoinedEmpty(vectors, n - 1);
      assert vectors + seq(n, _ => []) == (vectors + seq(n - 1, _ => [])) + [[]];
      JoinedAppend(vectors + seq(n - 1, _ => []), []);
    }
  }

  lemma StepKeepsScores(s: Gather, row: Row, score: Score)
    requires |s.written| == s.last
    ensures var t := Step(s, row, score);
      && |t.written| == t.last
      && Joined(All(t)) == Joined(All(s))
                           + if row.inside == -1 then [] else [score(row.origEvent, row.inside, row.branch)]
  {
    hide Joined;
    var t := Step(s, row, score);
    JoinedAppend(s.written, s.pending);
    JoinedAppend(t.written, t.pending);
  }

  lemma {:induction false} RunKeepsScores(rows: seq<Row>, score: Score)
    ensures var s := Run(START, rows, score);
      Joined(All(s)) == RowScores(rows, score) && |s.written| == s.last
  {
    hide Joined, Step;
    if rows == [] {
      JoinedAppend([], []);
      NothingJoined();
    } else {
      var n := |rows| - 1;
      RunKeepsScores(rows[..n], score);
      StepKeepsScores(Run(START, rows[..n], score), rows[n], score);
    }
  }

  lemma NothingJoined()
    ensures Joined([]) == []
  {}

  /** Whatever the rows are, and however many entries are asked for, the file holds exactly the
      scores of the candidate rows, in order; filters only move them between entries. */
  lemma UnflatKeepsScores(rows: seq<Row>, score: Score, total: nat)
    ensures Joined(Unflat(rows, score, total)) == RowScores(rows, score)
    ensures |Unflat(rows, score, total)| >= total
  {
    var s := Run(START, rows, score);
    RunKeepsScores(rows, score);
    JoinedEmpty(All(s), if s.last + 1 < total then total - (s.last + 1) else 0);
  }

  /** The failing input: one candidate each in three events, of which the middle one is dropped. */
  lemma GapMisplacesScores(file: FileInfo, score: Score)
    ensures var kept, dropped :=
        Event(true, 1, [], [[0.0]], 1.0, 1.0, 1.0), Event(false, 1, [], [[0.0]], 1.0, 1.0, 1.0);
      var events := [kept, dropped, kept];
      Unflat(Flat(events, file), score, 3) != Expected(events, score)
  {
    var kept := Event(true, 1, [], [[0.0]], 1.0, 1.0, 1.0);
    var events := [kept, kept.(kept := false), kept];
    assert events[2].kept && events[2].Count() == 1 && !events[1].kept;
    RoundTrip(events, file, score);
  }

  /** In particular when the filter keeps a prefix of the events. */
  lemma PrefixRoundTrip(events: seq<Event>, file: FileInfo, score: Score, cut: nat)
    requires events != []
    requires forall i :: 0 <= i < |events| ==> (events[i].kept <==> i < cut)
    ensures Unflat(Flat(events, file), score, |events|) == Expected(events, score)
  {
    RoundTrip(events, file, score);
  }

  // ----- The friend tree -----

  /** `MakeFlatFriend` neither filters nor looks at the vector lengths. */
  function FriendRows(e: Event, index: nat, pass: Event -> int): seq<(nat, int)> {
    if e.declared == 0 then [(index, -1)] else seq(e.declared, _ => (index, pass(e)))
  }

  /** Each friend row with the event it was written for. */
  function Friend(events: seq<Event>, pass: Event -> int): seq<(nat, int)> {
    if events == [] then []
    else
      var n := |events| - 1;
      Friend(events[..n], pass) + FriendRows(events[n], n, pass)
  }

  method MakeFlatFriend(events: seq<Event>, pass: Event -> int) returns (rows: seq<int>)
    ensures |rows| == |Friend(events, pass)|
    ensures forall k :: 0 <= k < |rows| ==> rows[k] == Friend(events, pass)[k].1
  {
    rows := [];
    for i := 0 to |events|
      invariant |rows| == |Friend(events[..i], pass)|
      invariant forall k :: 0 <= k < |rows| ==> rows[k] == Friend(events[..i], pass)[k].1
    {
      var e := events[i];
      assert events[..i + 1][..i] == events[..i];
      if e.declared == 0 {
        rows := rows + [-1];
        continue;
      }
      ghost var before := rows;
      for j := 0 to e.declared
        invariant rows == before + seq(j, _ => pass(e))
      {
        rows := rows + [pass(e)];
      }
    }
    assert events[..|events|] == events;
  }

  /** A friend row is the verdict on the event it was written for. */
  ghost predicate IsVerdict(row: (nat, int), events: seq<Event>, pass: Event -> int) {
    row.0 < |events| && row.1 == if events[row.0].declared == 0 then -1 else pass(events[row.0])
  }

  lemma {:induction false} FriendMeaning(events: seq<Event>, pass: Event -> int)
    ensures forall k :: 0 <= k < |Friend(events, pass)| ==> IsVerdict(Friend(events, pass)[k], events, pass)
  {
    if events != [] {
      var n := |events| - 1;
      var front := Friend(events[..n], pass);
      FriendMeaning(events[..n], pass);
      forall k | 0 <= k < |Friend(events, pass)|
        ensures IsVerdict(Friend(events, pass)[k], events, pass)
      {
        if k < |front| {
          assert Friend(events, pass)[k] == front[k];
          assert IsVerdict(front[k], events[..n], pass);
        } else {
          assert Friend(events, pass)[k] == FriendRows(events[n], n, pass)[k - |front|];
        }
      }
    }
  }

  function FlatOrigins(events: seq<Event>, file: FileInfo): seq<nat> {
    var rows := Flat(events, file);
    seq(|rows|, k requires 0 <= k < |rows| => rows[k].origEvent)
  }

  function FriendOrigins(events: seq<Event>, pass: Event -> int): seq<nat> {
    var rows := Friend(events, pass);
    seq(|rows|, k requires 0 <= k < |rows| => rows[k].0)
  }

  function FlatRowCount(e: Event): nat {
    if !e.kept then 0 else if e.Count() == 0 then 1 else e.Count()
  }

  function FriendRowCount(e: Event): nat {
    if e.declared == 0 then 1 else e.declared
  }

  /** Index i repeated counts[i] times, in order. */
  function Repeated(counts: seq<nat>): seq<nat> {
    if counts == [] then []
    else
      var n := |counts| - 1;
      Repeated(counts[..n]) + seq(counts[n], _ => n)
  }

  lemma {:induction false} CopiesBag(count: nat, n: nat, i: nat)
    ensures multiset(seq(count, _ => n))[i] == if i == n then count else 0
  {
    if count > 0 {
      CopiesBag(count - 1, n, i);
      assert seq(count, _ => n) == seq(count - 1, _ => n) + [n];
    }
  }

  lemma {:induction false} RepeatedBag(counts: seq<nat>, i: nat)
    ensures multiset(Repeated(counts))[i] == if i < |counts| then counts[i] else 0
  {
    if counts != [] {
      var n := |counts| - 1;
      RepeatedBag(counts[..n], i);
      CopiesBag(counts[n], n, i);
      var front, copies := Repeated(counts[..n]), seq(counts[n], _ => n);
      assert multiset(front + copies) == multiset(front) + multiset(copies);
    }
  }

  lemma RepeatedInjective(a: seq<nat>, b: seq<nat>)
    requires |a| == |b| && Repeated(a) == Repeated(b)
    ensures a == b
  {
    forall i | 0 <= i < |a|
      ensures a[i] == b[i]
    {
      RepeatedBag(a, i);
      RepeatedBag(b, i);
    }
  }

  function Counts(events: seq<Event>, count: Event -> nat): (c: seq<nat>)
    ensures |c| == |events|
  {
    seq(|events|, i requires 0 <= i < |events| => count(events[i]))
  }

  lemma {:induction false} FlatOriginsRepeat(events: seq<Event>, file: FileInfo)
    ensures FlatOrigins(events, file) == Repeated(Counts(events, FlatRowCount))
  {
    if events != [] {
      var n := |events| - 1;
      FlatOriginsRepeat(events[..n], file);
      assert Counts(events, FlatRowCount)[..n] == Counts(events[..n], FlatRowCount);
      assert FlatOrigins(events, file) == FlatOrigins(events[..n], file) + seq(FlatRowCount(events[n]), _ => n);
    }
  }

  lemma {:induction false} FriendOriginsRepeat(events: seq<Event>, pass: Event -> int)
    ensures FriendOrigins(events, pass) == Repeated(Counts(events, FriendRowCount))
  {
    if events != [] {
      var n := |events| - 1;
      FriendOriginsRepeat(events[..n], pass);
      assert Counts(events, FriendRowCount)[..n] == Counts(events[..n], FriendRowCount);
      assert FriendOrigins(events, pass) == FriendOrigins(events[..n], pass) + seq(FriendRowCount(events[n]), _ => n);
    }
  }

  /** Every event has one friend row per declared candidate, and one if it declares none. */
  lemma FriendRowsPerEvent(events: seq<Event>, pass: Event -> int, i: nat)
    requires i < |events|
    ensures multiset(FriendOrigins(events, pass))[i] == if events[i].declared == 0 then 1 else events[i].declared
  {
    FriendOriginsRepeat(events, pass);
    var counts := Counts(events, FriendRowCount);
    RepeatedBag(counts, i);
    assert counts[i] == FriendRowCount(events[i]);
  }

  predicate FitsVectors(e: Event) {
    e.declared <= |e.candidates| || (e.declared == 1 && e.candidates == [])
  }

  /** The friend lines up with the flat tree, row by row, exactly when nothing was filtered
      out and no event declares more candidates than its vectors hold (one declared
      candidate and an empty vector also agree, on a single row). */
  lemma FriendAligned(events: seq<Event>, file: FileInfo, pass: Event -> int)
    ensures FlatOrigins(events, file) == FriendOrigins(events, pass)
       <==> forall i :: 0 <= i < |events| ==> events[i].kept && FitsVectors(events[i])
  {
    var a, b := Counts(events, FlatRowCount), Counts(events, FriendRowCount);
    FlatOriginsRepeat(events, file);
    FriendOriginsRepeat(events, pass);
    if Repeated(a) == Repeated(b) {
      RepeatedInjective(a, b);
      forall i | 0 <= i < |events|
        ensures FlatRowCount(events[i]) == FriendRowCount(events[i])
      {
        assert a[i] == b[i];
      }
    } else {
      assert a != b;
      var i :| 0 <= i < |events| && a[i] != b[i];
      assert FlatRowCount(events[i]) != FriendRowCount(events[i]);
    }
  }

  /** Then each flat row is paired with the verdict on its own event. */
  lemma AlignedVerdicts(events: seq<Event>, file: FileInfo, pass: Event -> int, k: nat)
    requires FlatOrigins(events, file) == FriendOrigins(events, pass) && k < |Flat(events, file)|
    ensures k < |Friend(events, pass)|
    ensures var e := Flat(events, file)[k].origEvent;
      e < |events| && Friend(events, pass)[k].1 == if events[e].declared == 0 then -1 else pass(events[e])
  {
    assert |FlatOrigins(events, file)| == |FriendOrigins(events, pass)|;
    assert FlatOrigins(events, file)[k] == FriendOrigins(events, pass)[k];
    FriendMeaning(events, pass);
    assert Friend(events, pass)[k] == (Flat(events, file)[k].origEvent, Friend(events, pass)[k].1);
  }
}
