/** Runs of the two calls that draw and activate the list of a stage, `calcBDTEntryList` and
    `setStageEntryList` of hive/src/bdt_file.cxx, without external cuts: since a list is drawn
    inside the active one, the order of the calls decides what it holds. */
module StageRuns {
  import opened EntryPrefilter
  import opened EntryListCache
  import opened Wrappers

  datatype Request = Set(stage: int) | Calc(stage: int)

  predicate IsRequest(r: Request, n: nat) {
    (if r.Set? then 0 else 2) <= r.stage <= n + 1
  }

  ghost predicate IsRun(run: seq<Request>, n: nat) {
    forall i :: 0 <= i < |run| ==> IsRequest(run[i], n)
  }

  function AfterRequest(f: Sample, s: Stages, r: Request): (t: Stages)
    requires IsRequest(r, |s.lists|)
    ensures |t.lists| == |s.lists|
  {
    match r
    case Set(stage) => AfterSet(f, s, stage, [])
    case Calc(stage) => AfterCalc(f, s, stage, [])
  }

  /** The requests of `run` one after the other, on a file of `n` BDTs without any list. */
  function AfterRun(f: Sample, n: nat, run: seq<Request>): (s: Stages)
    requires IsRun(run, n)
    ensures |s.lists| == n
  {
    if run == [] then NoLists(n)
    else AfterRequest(f, AfterRun(f, n, run[..|run| - 1]), run[|run| - 1])
  }

  /** Every stage that is set is read through the list it should have. */
  ghost predicate Exact(f: Sample, n: nat, run: seq<Request>)
    requires IsRun(run, n)
  {
    forall i :: 0 <= i < |run| && run[i].Set? ==> AfterRun(f, n, run[..i + 1]).active == Full(f, run[i].stage)
  }

  // ----- Where the lists were drawn -----

  /** The stage set last, and for every BDT stage the one in which its list was drawn. */
  datatype Marks = Marks(inside: seq<Option<nat>>, current: nat)

  function Mark(m: Marks, r: Request): (marks: Marks)
    requires IsRequest(r, |m.inside|)
    ensures |marks.inside| == |m.inside|
  {
    var draws := r.stage >= 2 && (r.Calc? || m.inside[r.stage - 2] == None);
    Marks(if draws then m.inside[r.stage - 2 := Some(m.current)] else m.inside,
          if r.Set? then r.stage else m.current)
  }

  function MarksOf(run: seq<Request>, n: nat): (m: Marks)
    requires IsRun(run, n)
    ensures |m.inside| == n
  {
    if run == [] then Marks(seq(n, _ => None), 0)
    else Mark(MarksOf(run[..|run| - 1], n), run[|run| - 1])
  }

  /** A stage that is set and has a cut of its own, of `depth` cuts, was drawn in no later one. */
  predicate ClimbsTo(m: Marks, r: Request, depth: nat)
    requires IsRequest(r, |m.inside|)
  {
    r.Set? && 2 <= r.stage <= depth ==>
      m.inside[r.stage - 2] != None && m.inside[r.stage - 2].value <= r.stage
  }

  ghost predicate Climbs(run: seq<Request>, n: nat, depth: nat)
    requires IsRun(run, n)
  {
    forall i :: 0 <= i < |run| ==> ClimbsAt(run, i, n, depth)
  }

  predicate ClimbsAt(run: seq<Request>, i: int, n: nat, depth: nat)
    requires IsRun(run, n) && 0 <= i < |run|
  {
    ClimbsTo(MarksOf(run[..i + 1], n), run[i], depth)
  }

  lemma ClimbsAtPrefix(run: seq<Request>, m: nat, i: nat, n: nat, depth: nat)
    requires IsRun(run, n) && i < m <= |run|
    ensures ClimbsAt(run[..m], i, n, depth) <==> ClimbsAt(run, i, n, depth)
  {
    assert run[..m][..i + 1] == run[..i + 1];
  }

  // ----- What the lists hold -----

  function Later(a: nat, b: nat): nat {
    if a < b then b else a
  }

  lemma DrawnInside(f: Sample, outer: nat, stage: nat)
    ensures Filter(Full(f, outer).value, StagePicks(f.tree, f.bdtCuts, stage)) == Full(f, Later(outer, stage)).value
  {
    FilterDraw(|f.tree|, StagePicks(f.tree, f.bdtCuts, outer), StagePicks(f.tree, f.bdtCuts, stage),
               StagePicks(f.tree, f.bdtCuts, Later(outer, stage)));
  }

  /** Stages past the last cut hold the same events. */
  lemma DeepStages(f: Sample, a: nat, b: nat)
    requires a > |f.bdtCuts| && b > |f.bdtCuts| && a >= 1 && b >= 1
    ensures Full(f, a) == Full(f, b)
  {
    FilterDraw(|f.tree|, StagePicks(f.tree, f.bdtCuts, a), StagePicks(f.tree, f.bdtCuts, a),
               StagePicks(f.tree, f.bdtCuts, a));
    FilterDraw(|f.tree|, StagePicks(f.tree, f.bdtCuts, a), StagePicks(f.tree, f.bdtCuts, a),
               StagePicks(f.tree, f.bdtCuts, b));
  }

  ghost predicate ListsMarked(f: Sample, s: Stages, m: Marks) {
    && |s.lists| == |m.inside|
    && forall k :: 0 <= k < |s.lists| ==>
         s.lists[k] == (if m.inside[k] == None then None else Full(f, Later(m.inside[k].value, k + 2)))
  }

  ghost predicate ActiveMarked(f: Sample, s: Stages, m: Marks) {
    s.active == Full(f, m.current) || (s.active == None && m.current == 0)
  }

  lemma ListsStep(f: Sample, s: Stages, m: Marks, r: Request)
    requires ListsMarked(f, s, m) && ActiveMarked(f, s, m) && IsRequest(r, |s.lists|)
    ensures ListsMarked(f, AfterRequest(f, s, r), Mark(m, r))
  {
    hide StagePicks, Filter, Draw;
    if r.stage >= 2 {
      DrawnInside(f, m.current, r.stage);
    }
  }

  /** A request that climbs also leaves the right list active. */
  lemma ActiveStep(f: Sample, s: Stages, m: Marks, r: Request)
    requires HasBaseLists(f) && ListsMarked(f, s, m) && ActiveMarked(f, s, m) && IsRequest(r, |s.lists|)
    requires ClimbsTo(Mark(m, r), r, |f.bdtCuts|)
    ensures ActiveMarked(f, AfterRequest(f, s, r), Mark(m, r))
    ensures r.Set? ==> AfterRequest(f, s, r).active == Full(f, r.stage)
  {
    ListsStep(f, s, m, r);
    hide StagePicks, Draw, DrawThrough;
    if r.Set? && r.stage >= 2 {
      var x := Mark(m, r).inside[r.stage - 2].value;
      if r.stage > |f.bdtCuts| {
        DeepStages(f, Later(x, r.stage), r.stage);
      }
    }
  }

  lemma {:induction false} ClimbingRun(f: Sample, n: nat, run: seq<Request>)
    requires HasBaseLists(f) && IsRun(run, n) && Climbs(run, n, |f.bdtCuts|)
    ensures ListsMarked(f, AfterRun(f, n, run), MarksOf(run, n))
    ensures ActiveMarked(f, AfterRun(f, n, run), MarksOf(run, n))
    ensures run != [] && run[|run| - 1].Set? ==> AfterRun(f, n, run).active == Full(f, run[|run| - 1].stage)
  {
    if run != [] {
      var i := |run| - 1;
      ClimbingPrefix(run, n, i, |f.bdtCuts|);
      ClimbingRun(f, n, run[..i]);
      assert run[..i + 1] == run;
      ListsStep(f, AfterRun(f, n, run[..i]), MarksOf(run[..i], n), run[i]);
      assert ClimbsAt(run, i, n, |f.bdtCuts|);
      ActiveStep(f, AfterRun(f, n, run[..i]), MarksOf(run[..i], n), run[i]);
    }
  }

  lemma ClimbingPrefix(run: seq<Request>, n: nat, m: nat, depth: nat)
    requires m <= |run| && IsRun(run, n)
    requires forall i :: 0 <= i < m ==> ClimbsAt(run, i, n, depth)
    ensures IsRun(run[..m], n) && Climbs(run[..m], n, depth)
  {
    hide ClimbsAt;
    forall i | 0 <= i < m
      ensures ClimbsAt(run[..m], i, n, depth)
    {
      ClimbsAtPrefix(run, m, i, n, depth);
    }
  }

  // ----- When every list is the right one -----

  /** Whatever the events are, every stage that is set is read through the right list exactly
      when no set stage with a cut of its own was drawn inside a later one. */
  lemma ExactIffClimbing(n: nat, bdtCuts: Cuts, run: seq<Request>)
    requires IsRun(run, n)
    ensures (forall f: Sample :: HasBaseLists(f) && f.bdtCuts == bdtCuts ==> Exact(f, n, run))
       <==> Climbs(run, n, |bdtCuts|)
  {
    if Climbs(run, n, |bdtCuts|) {
      forall f: Sample, i | HasBaseLists(f) && f.bdtCuts == bdtCuts && 0 <= i < |run| && run[i].Set?
        ensures AfterRun(f, n, run[..i + 1]).active == Full(f, run[i].stage)
      {
        ClimbingPrefix(run, n, i + 1, |bdtCuts|);
        ClimbingRun(f, n, run[..i + 1]);
      }
    } else {
      var i := FirstDescent(run, n, |run|, |bdtCuts|);
      var f := BetweenStages(bdtCuts, run[i].stage);
      DescentLosesEvent(f, n, run, i);
    }
  }

  lemma {:induction false} FirstDescent(run: seq<Request>, n: nat, m: nat, depth: nat) returns (i: int)
    requires IsRun(run, n) && m <= |run|
    requires !forall i :: 0 <= i < m ==> ClimbsAt(run, i, n, depth)
    ensures 0 <= i < m && !ClimbsAt(run, i, n, depth) && Climbs(run[..i], n, depth)
  {
    if forall i :: 0 <= i < m - 1 ==> ClimbsAt(run, i, n, depth) {
      i := m - 1;
      ClimbingPrefix(run, n, i, depth);
    } else {
      i := FirstDescent(run, n, m - 1, depth);
    }
  }

  /** A file of one event that passes the cuts of `stage` and of no later one. */
  ghost function BetweenStages(bdtCuts: Cuts, stage: nat): (f: Sample)
    requires 2 <= stage <= |bdtCuts|
    ensures HasBaseLists(f) && f.bdtCuts == bdtCuts
  {
    var scores := seq(|bdtCuts|, b requires 0 <= b < |bdtCuts| =>
                        if b < stage - 1 then bdtCuts[b] else bdtCuts[b] - 1.0);
    var tree := [Event(true, true, 1.0, scores)];
    Sample(tree, Some(Draw(1, StagePicks(tree, bdtCuts, 0))), Some(Draw(1, StagePicks(tree, bdtCuts, 1))), bdtCuts)
  }

  lemma DescentLosesEvent(f: Sample, n: nat, run: seq<Request>, i: nat)
    requires IsRun(run, n) && i < |run| && Climbs(run[..i], n, |f.bdtCuts|)
    requires !ClimbsAt(run, i, n, |f.bdtCuts|)
    requires f == BetweenStages(f.bdtCuts, run[i].stage)
    ensures AfterRun(f, n, run[..i + 1]).active != Full(f, run[i].stage)
  {
    var stage, front := run[i].stage, run[..i];
    assert run[..i + 1][..i] == front;
    ClimbingRun(f, n, front);
    ListsStep(f, AfterRun(f, n, front), MarksOf(front, n), run[i]);
    OnlyEarlierStages(f, stage, Later(MarksOf(run[..i + 1], n).inside[stage - 2].value, stage));
  }

  lemma OnlyEarlierStages(f: Sample, stage: nat, later: nat)
    requires 2 <= stage <= |f.bdtCuts| && stage < later && f == BetweenStages(f.bdtCuts, stage)
    ensures Full(f, stage) != Full(f, later)
  {
    assert f.tree[0].scores[stage - 1] < f.bdtCuts[stage - 1];
    DrawOne(f, stage);
    DrawOne(f, later);
  }

  lemma DrawOne(f: Sample, stage: nat)
    requires |f.tree| == 1
    ensures Full(f, stage) == if PassesStage(f.tree[0], f.bdtCuts, stage) then Some([0]) else Some([])
  {
    var pick := StagePicks(f.tree, f.bdtCuts, stage);
    DrawStep(1, pick);
    assert Draw(1, pick) == if PassesStage(f.tree[0], f.bdtCuts, stage) then [0] else [];
  }

  // ----- Two ways to visit stages -----

  ghost predicate AreStages(stages: seq<int>, n: nat) {
    forall i :: 0 <= i < |stages| ==> 0 <= stages[i] <= n + 1
  }

  /** Only setting them, as most plots do. */
  function Sets(stages: seq<int>): (run: seq<Request>)
    ensures |run| == |stages|
  {
    seq(|stages|, i requires 0 <= i < |stages| => Set(stages[i]))
  }

  /** Drawing the list of each BDT stage anew before setting it, as the efficiency plots do. */
  function Visits(stages: seq<int>): seq<Request> {
    if stages == [] then []
    else
      var front, stage := Visits(stages[..|stages| - 1]), stages[|stages| - 1];
      front + Visit(stage)
  }

  function Visit(stage: int): seq<Request> {
    if stage > 1 then [Calc(stage), Set(stage)] else [Set(stage)]
  }

  /** Step i does not go down to a stage with a cut of its own. */
  predicate GoesUp(stages: seq<int>, i: int, depth: nat)
    requires 0 <= i < |stages|
  {
    i == 0 || stages[i - 1] <= stages[i] || stages[i] < 2 || stages[i] > depth
  }

  lemma MarksAppend(run: seq<Request>, r: Request, n: nat)
    requires IsRun(run, n) && IsRequest(r, n)
    ensures IsRun(run + [r], n) && MarksOf(run + [r], n) == Mark(MarksOf(run, n), r)
  {
    assert (run + [r])[..|run|] == run;
  }

  lemma ClimbsAppend(run: seq<Request>, r: Request, n: nat, depth: nat)
    requires IsRun(run, n) && IsRequest(r, n)
    ensures IsRun(run + [r], n) && MarksOf(run + [r], n) == Mark(MarksOf(run, n), r)
    ensures Climbs(run + [r], n, depth) <==> Climbs(run, n, depth) && ClimbsTo(Mark(MarksOf(run, n), r), r, depth)
  {
    MarksAppend(run, r, n);
    hide Mark, ClimbsTo;
    var long, m := run + [r], |run|;
    assert long[..m] == run && long[..m + 1] == long;
    assert ClimbsAt(long, m, n, depth) <==> ClimbsTo(MarksOf(long, n), r, depth);
    hide ClimbsAt, MarksOf;
    forall i | 0 <= i < m
      ensures ClimbsAt(run, i, n, depth) <==> ClimbsAt(long, i, n, depth)
    {
      ClimbsAtPrefix(long, m, i, n, depth);
    }
  }

  /** Setting alone draws a list only once: going down is harmless where one has been before. */
  lemma SetsClimbIff(stages: seq<int>, n: nat, depth: nat)
    requires AreStages(stages, n)
    ensures IsRun(Sets(stages), n)
    ensures Climbs(Sets(stages), n, depth)
       <==> forall i :: 0 <= i < |stages| ==> GoesUp(stages, i, depth) || stages[i] in stages[..i]
  {
    hide MarksOf, Climbs;
    SetsUpTo(stages, n, depth, |stages|);
    assert Sets(stages)[..|stages|] == Sets(stages);
  }

  /** The marks after setting the stages `seen`. */
  ghost predicate SetsMarked(marks: Marks, seen: seq<int>) {
    && marks.current == (if seen == [] then 0 else seen[|seen| - 1])
    && forall k :: 0 <= k < |marks.inside| ==> (marks.inside[k] == None <==> k + 2 !in seen)
  }

  ghost predicate MarkedBelow(marks: Marks, depth: nat) {
    forall k :: 0 <= k < |marks.inside| && k + 2 <= depth && marks.inside[k] != None ==> marks.inside[k].value <= k + 2
  }

  lemma SetStep(marks: Marks, seen: seq<int>, stage: nat, depth: nat)
    requires SetsMarked(marks, seen) && IsRequest(Set(stage), |marks.inside|) && MarkedBelow(marks, depth)
    ensures var next := Mark(marks, Set(stage));
      && SetsMarked(next, seen + [stage])
      && (ClimbsTo(next, Set(stage), depth)
          <==> GoesUp(seen + [stage], |seen|, depth) || stage in seen)
      && (ClimbsTo(next, Set(stage), depth) ==> MarkedBelow(next, depth))
  {
    assert forall k :: k in seen + [stage] <==> k in seen || k == stage;
  }

  lemma SetMarks(marks: Marks, seen: seq<int>, stage: nat)
    requires SetsMarked(marks, seen) && IsRequest(Set(stage), |marks.inside|)
    ensures SetsMarked(Mark(marks, Set(stage)), seen + [stage])
  {
    assert forall k :: k in seen + [stage] <==> k in seen || k == stage;
  }

  ghost predicate Returns(stages: seq<int>, m: nat, depth: nat)
    requires m <= |stages|
  {
    forall i :: 0 <= i < m ==> GoesUp(stages, i, depth) || stages[i] in stages[..i]
  }

  lemma {:induction false} SetsUpTo(stages: seq<int>, n: nat, depth: nat, m: nat)
    requires AreStages(stages, n) && m <= |stages|
    ensures IsRun(Sets(stages)[..m], n)
    ensures var run := Sets(stages)[..m];
      && SetsMarked(MarksOf(run, n), stages[..m])
      && (Climbs(run, n, depth) <==> Returns(stages, m, depth))
      && (Climbs(run, n, depth) ==> MarkedBelow(MarksOf(run, n), depth))
  {
    hide Climbs, MarksOf, Mark, ClimbsTo, SetsMarked, MarkedBelow, Returns, GoesUp;
    if m == 0 {
      EmptyRun(n, depth);
      NothingSet(stages, n, depth);
    } else {
      var i := m - 1;
      SetsUpTo(stages, n, depth, i);
      var run, r := Sets(stages)[..i], Set(stages[i]);
      assert Sets(stages)[..m] == run + [r];
      assert stages[..m] == stages[..i] + [stages[i]];
      ClimbsAppend(run, r, n, depth);
      SetMarks(MarksOf(run, n), stages[..i], stages[i]);
      GoesUpPrefix(stages, m, i, depth);
      ReturnsStep(stages, m, depth);
      if Climbs(run, n, depth) {
        SetStep(MarksOf(run, n), stages[..i], stages[i], depth);
      }
    }
  }

  lemma EmptyRun(n: nat, depth: nat)
    ensures Climbs([], n, depth) && MarksOf([], n) == Marks(seq(n, _ => None), 0)
  {}

  lemma NothingSet(stages: seq<int>, n: nat, depth: nat)
    ensures SetsMarked(Marks(seq(n, _ => None), 0), []) && MarkedBelow(Marks(seq(n, _ => None), 0), depth)
    ensures Returns(stages, 0, depth)
  {}

  lemma GoesUpPrefix(stages: seq<int>, m: nat, i: nat, depth: nat)
    requires i < m <= |stages|
    ensures GoesUp(stages[..m], i, depth) <==> GoesUp(stages, i, depth)
  {}

  lemma ReturnsStep(stages: seq<int>, m: nat, depth: nat)
    requires 0 < m <= |stages|
    ensures Returns(stages, m, depth)
       <==> Returns(stages, m - 1, depth) && (GoesUp(stages, m - 1, depth) || stages[m - 1] in stages[..m - 1])
  {}

  /** Drawing anew forgets where one has been: every step down to a stage with a cut is wrong. */
  lemma {:induction false} VisitsClimbIff(stages: seq<int>, n: nat, depth: nat)
    requires AreStages(stages, n)
    ensures IsRun(Visits(stages), n)
    ensures MarksOf(Visits(stages), n).current == if stages == [] then 0 else stages[|stages| - 1]
    ensures Climbs(Visits(stages), n, depth) <==> forall i :: 0 <= i < |stages| ==> GoesUp(stages, i, depth)
  {
    hide Climbs, MarksOf, GoesUp, Visit;
    if stages == [] {
      EmptyRun(n, depth);
    } else {
      var i := |stages| - 1;
      var front, stage := stages[..i], stages[i];
      VisitsClimbIff(front, n, depth);
      forall k | 0 <= k < i
        ensures GoesUp(front, k, depth) <==> GoesUp(stages, k, depth)
      {
        GoesUpPrefix(stages, i, k, depth);
      }
      LastGoesUp(stages, depth);
      VisitStep(Visits(front), stage, n, depth);
    }
  }

  lemma LastGoesUp(stages: seq<int>, depth: nat)
    requires stages != [] && forall i :: 0 <= i < |stages| ==> stages[i] >= 0
    ensures var i, stage := |stages| - 1, stages[|stages| - 1];
      GoesUp(stages, i, depth)
      <==> (if i == 0 then 0 else stages[i - 1]) <= stage || stage < 2 || stage > depth
  {}

  lemma VisitStep(run: seq<Request>, stage: nat, n: nat, depth: nat)
    requires IsRun(run, n) && stage <= n + 1
    ensures IsRun(run + Visit(stage), n) && MarksOf(run + Visit(stage), n).current == stage
    ensures Climbs(run + Visit(stage), n, depth)
       <==> Climbs(run, n, depth) && (MarksOf(run, n).current <= stage || stage < 2 || stage > depth)
  {
    hide Climbs, MarksOf;
    if stage > 1 {
      ClimbsAppend(run, Calc(stage), n, depth);
      ClimbsAppend(run + [Calc(stage)], Set(stage), n, depth);
      assert run + [Calc(stage)] + [Set(stage)] == run + Visit(stage);
    } else {
      ClimbsAppend(run, Set(stage), n, depth);
    }
  }

  /** The stages of the efficiency plots: denominator and numerator for one variable after the
      other. */
  function PlotStages(denom: nat, numer: nat, vars: nat): seq<int> {
    seq(2 * vars, i => if i % 2 == 0 then denom else numer)
  }

  predicate LosesInside(stage: nat, outer: nat, depth: nat) {
    2 <= stage < outer && stage <= depth
  }

  /** The efficiency plots use the right lists for every file exactly when the numerator can be
      drawn inside the denominator and, from the second variable on, the other way round. */
  lemma EfficiencyPlotsIff(n: nat, bdtCuts: Cuts, denom: nat, numer: nat, vars: nat)
    requires denom <= n + 1 && numer <= n + 1
    ensures var run := Visits(PlotStages(denom, numer, vars));
      && IsRun(run, n)
      && ((forall f: Sample :: HasBaseLists(f) && f.bdtCuts == bdtCuts ==> Exact(f, n, run))
          <==> (vars >= 1 ==> !LosesInside(numer, denom, |bdtCuts|))
               && (vars >= 2 ==> !LosesInside(denom, numer, |bdtCuts|)))
  {
    hide Visits, Climbs, Exact, PlotStages, GoesUp, HasBaseLists;
    var stages, depth := PlotStages(denom, numer, vars), |bdtCuts|;
    AlternatingStages(denom, numer, vars, n);
    VisitsClimbIff(stages, n, depth);
    ExactIffClimbing(n, bdtCuts, Visits(stages));
    PlotStagesGoUpIff(denom, numer, vars, depth);
  }

  lemma AlternatingStages(denom: nat, numer: nat, vars: nat, n: nat)
    requires denom <= n + 1 && numer <= n + 1
    ensures AreStages(PlotStages(denom, numer, vars), n)
  {}

  lemma PlotStagesGoUpIff(denom: nat, numer: nat, vars: nat, depth: nat)
    ensures var stages := PlotStages(denom, numer, vars);
      (forall i :: 0 <= i < |stages| ==> GoesUp(stages, i, depth))
      <==> (vars >= 1 ==> !LosesInside(numer, denom, depth)) && (vars >= 2 ==> !LosesInside(denom, numer, depth))
  {
    var stages := PlotStages(denom, numer, vars);
    forall i | 0 < i < |stages|
      ensures GoesUp(stages, i, depth)
         <==> !if i % 2 == 0 then LosesInside(denom, numer, depth) else LosesInside(numer, denom, depth)
    {
      assert (i - 1) % 2 != i % 2;
    }
    if vars >= 1 {
      assert GoesUp(stages, 1, depth) <==> !LosesInside(numer, denom, depth);
    }
    if vars >= 2 {
      assert GoesUp(stages, 2, depth) <==> !LosesInside(denom, numer, depth);
    }
  }
}
