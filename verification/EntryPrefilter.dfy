/** The stage entry lists of a file: each is selected once, through whatever list is active,
    and the grid scans count inside the list selected at the scan minima instead of over the
    whole tree (`setStageEntryList`, `calcBDTEntryList` and `getStageCuts` of
    hive/src/bdt_file.cxx, the stage cuts of hive/src/bdt_flow.cxx). */
module EntryPrefilter {
  import opened EntryListCache
  import opened Wrappers

  /** One event: the definition and topological cuts, the preselection, its weight and one score per BDT. */
  datatype Event = Event(base: bool, preselected: bool, weight: real, scores: seq<real>)

  type Cuts = seq<real>

  ghost predicate HasScores(tree: seq<Event>, n: nat) {
    forall k :: 0 <= k < |tree| ==> |tree[k].scores| == n
  }

  /** `getStageCuts` with cuts given: the preselection and every score above its cut. */
  predicate Passes(e: Event, cuts: Cuts) {
    e.base && e.preselected && |e.scores| >= |cuts| && forall b :: 0 <= b < |cuts| ==> e.scores[b] > cuts[b]
  }

  /** `GetStageCuts` of the flow with its own cuts, which are inclusive; stages past the last
      configured cut add nothing. */
  predicate PassesStage(e: Event, bdtCuts: Cuts, stage: nat) {
    var depth := if stage <= |bdtCuts| then stage - 1 else |bdtCuts|;
    && e.base && (stage >= 1 ==> e.preselected)
    && |e.scores| >= depth && forall b :: 0 <= b < depth ==> e.scores[b] >= bdtCuts[b]
  }

  function Picks(tree: seq<Event>, cuts: Cuts): nat -> bool {
    (k: nat) => k < |tree| && Passes(tree[k], cuts)
  }

  function Select(tree: seq<Event>, cuts: Cuts): EntryList {
    Draw(|tree|, Picks(tree, cuts))
  }

  /** Weight of the listed events that pass. */
  function WeightIn(tree: seq<Event>, list: EntryList, cuts: Cuts): real {
    if list == [] then 0.0
    else
      var k := list[|list| - 1];
      WeightIn(tree, list[..|list| - 1], cuts) + if k < |tree| && Passes(tree[k], cuts) then tree[k].weight else 0.0
  }

  /** Weight of all events of the first n that pass. */
  function WeightAll(tree: seq<Event>, n: nat, cuts: Cuts): real
    requires n <= |tree|
  {
    if n == 0 then 0.0
    else WeightAll(tree, n - 1, cuts) + if Passes(tree[n - 1], cuts) then tree[n - 1].weight else 0.0
  }

  /** The part of a file that the calls below do not change. */
  datatype Sample = Sample(tree: seq<Event>, topologicalList: Option<EntryList>, precutList: Option<EntryList>,
                           bdtCuts: Cuts)

  /** The list of each BDT stage, from stage 2 on, and the list the tree is read through. */
  datatype Stages = Stages(lists: seq<Option<EntryList>>, active: Option<EntryList>)

  function StagePicks(tree: seq<Event>, bdtCuts: Cuts, stage: nat): nat -> bool {
    (k: nat) => k < |tree| && PassesStage(tree[k], bdtCuts, stage)
  }

  function Filter(list: EntryList, pick: nat -> bool): EntryList {
    if list == [] then []
    else
      var front, k := Filter(list[..|list| - 1], pick), list[|list| - 1];
      if pick(k) then front + [k] else front
  }

  /** A drawn selection looks at the active list only, if there is one. */
  function DrawThrough(n: nat, active: Option<EntryList>, pick: nat -> bool): EntryList {
    match active
    case None => Draw(n, pick)
    case Some(list) => Filter(list, pick)
  }

  /** `calcBDTEntryList`, without and with cuts. */
  function Selection(f: Sample, active: Option<EntryList>, stage: nat, cuts: Cuts): EntryList
    requires cuts == [] || 1 <= stage <= |cuts| + 1
  {
    DrawThrough(|f.tree|, active,
                if cuts == [] then StagePicks(f.tree, f.bdtCuts, stage) else Picks(f.tree, cuts[..stage - 1]))
  }

  /** A negative stage counts as a huge one in the comparison. */
  predicate IsStage(s: Stages, stage: int) {
    0 <= stage <= |s.lists| + 1
  }

  /** Too few cuts are read past their end, if they are read at all. */
  predicate EnoughCuts(s: Stages, stage: int, cuts: Cuts) {
    2 <= stage <= |s.lists| + 1 && s.lists[stage - 2] == None ==> cuts == [] || |cuts| >= stage - 1
  }

  function AfterCalc(f: Sample, s: Stages, stage: int, cuts: Cuts): Stages
    requires 2 <= stage <= |s.lists| + 1 && (cuts == [] || |cuts| >= stage - 1)
  {
    Stages(s.lists[stage - 2 := Some(Selection(f, s.active, stage, cuts))], s.active)
  }

  function AfterSet(f: Sample, s: Stages, stage: int, cuts: Cuts): Stages
    requires IsStage(s, stage) && EnoughCuts(s, stage, cuts)
  {
    if stage == 0 then Stages(s.lists, f.topologicalList)
    else if stage == 1 then Stages(s.lists, f.precutList)
    else
      var drawn := if s.lists[stage - 2] == None then AfterCalc(f, s, stage, cuts) else s;
      Stages(drawn.lists, drawn.lists[stage - 2])
  }

  /** The members of `bdt_file` that the stages use. */
  class StageFile {
    const f: Sample
    var lists: seq<Option<EntryList>>
    var active: Option<EntryList>

    function State(): Stages
      reads this
    {
      Stages(lists, active)
    }

    /** `n` BDTs. */
    constructor (f: Sample, n: nat)
      ensures this.f == f && State() == NoLists(n)
    {
      this.f := f;
      lists, active := seq(n, _ => None), None;
    }

    /** The list of a stage is selected once, inside the active list; later calls reuse it
        whatever their cuts. An unknown stage ends the program. */
    method SetStageEntryList(stage: int, cuts: Cuts) returns (exits: bool)
      requires EnoughCuts(State(), stage, cuts)
      modifies this
      ensures exits <==> stage < 0 || stage > |old(lists)| + 1
      ensures State() == if exits then old(State()) else AfterSet(f, old(State()), stage, cuts)
    {
      exits := false;
      if stage == 0 {
        active := f.topologicalList;
      } else if stage == 1 {
        active := f.precutList;
      } else if stage < 0 || stage > |lists| + 1 {
        return true;
      } else {
        if lists[stage - 2] == None {
          CalcBDTEntryList(stage, cuts);
        }
        active := lists[stage - 2];
      }
    }

    /** The list of the stage is drawn anew, inside the active list, which stays active. */
    method CalcBDTEntryList(stage: int, cuts: Cuts)
      requires 2 <= stage <= |lists| + 1 && (cuts == [] || |cuts| >= stage - 1)
      modifies this
      ensures State() == AfterCalc(f, old(State()), stage, cuts)
    {
      var list: EntryList;
      if cuts == [] {
        list := DrawThrough(|f.tree|, active, StagePicks(f.tree, f.bdtCuts, stage));
      } else {
        list := DrawThrough(|f.tree|, active, Picks(f.tree, cuts[..stage - 1]));
      }
      lists := lists[stage - 2 := Some(list)];
    }

    method GetEntries(cuts: Cuts) returns (total: real)
      ensures total == if active.Some? then WeightIn(f.tree, active.value, cuts) else WeightAll(f.tree, |f.tree|, cuts)
    {
      total := 0.0;
      match active
      case Some(list) =>
        for i := 0 to |list|
          invariant total == WeightIn(f.tree, list[..i], cuts)
        {
          assert list[..i + 1][..i] == list[..i];
          var k := list[i];
          if k < |f.tree| && Passes(f.tree[k], cuts) {
            total := total + f.tree[k].weight;
          }
        }
        assert list[..|list|] == list;
      case None =>
        for k := 0 to |f.tree|
          invariant total == WeightAll(f.tree, k, cuts)
        {
          if Passes(f.tree[k], cuts) {
            total := total + f.tree[k].weight;
          }
        }
    }
  }

  function NoLists(n: nat): Stages {
    Stages(seq(n, _ => None), None)
  }

  /** What the list of a stage should hold. */
  function Full(f: Sample, stage: nat): Option<EntryList> {
    Some(Draw(|f.tree|, StagePicks(f.tree, f.bdtCuts, stage)))
  }

  ghost predicate HasBaseLists(f: Sample) {
    f.topologicalList == Full(f, 0) && f.precutList == Full(f, 1)
  }

  lemma {:induction false} FilterDraw(n: nat, inner: nat -> bool, outer: nat -> bool, both: nat -> bool)
    requires forall k: nat :: k < n ==> (both(k) <==> inner(k) && outer(k))
    ensures Filter(Draw(n, inner), outer) == Draw(n, both)
  {
    if n > 0 {
      FilterDraw(n - 1, inner, outer, both);
      var list := Draw(n - 1, inner);
      assert (list + [n - 1])[..|list|] == list;
    }
  }

  // ----- What is selected and counted -----

  lemma {:induction false} FilterMeaning(list: EntryList, pick: nat -> bool, k: nat)
    ensures k in Filter(list, pick) <==> k in list && pick(k)
  {
    if list != [] {
      var n := |list| - 1;
      FilterMeaning(list[..n], pick, k);
      assert list == list[..n] + [list[n]];
    }
  }

  /** Event k is in a new list exactly when it is in the active one, is preselected, and reaches
      every cut of the flow below the stage, or exceeds every given one. */
  lemma SelectionMeaning(f: Sample, active: Option<EntryList>, stage: nat, cuts: Cuts, n: nat, k: nat)
    requires HasScores(f.tree, n) && 2 <= stage <= n + 1 && (cuts == [] || stage <= |cuts| + 1)
    ensures k in Selection(f, active, stage, cuts)
       <==> (k < |f.tree| && (active == None || k in active.value) && f.tree[k].base && f.tree[k].preselected
             && if cuts == [] then
                  forall b :: 0 <= b < stage - 1 && b < |f.bdtCuts| ==> f.tree[k].scores[b] >= f.bdtCuts[b]
                else
                  forall b :: 0 <= b < stage - 1 ==> f.tree[k].scores[b] > cuts[b])
  {
    var pick := if cuts == [] then StagePicks(f.tree, f.bdtCuts, stage) else Picks(f.tree, cuts[..stage - 1]);
    match active
    case None => DrawMeaning(|f.tree|, pick);
    case Some(list) => FilterMeaning(list, pick, k);
  }

  /** What the base lists hold, and the list of a BDT stage when it is drawn without another. */
  lemma FullMeaning(f: Sample, stage: nat, n: nat, k: nat)
    requires HasScores(f.tree, n) && stage <= n + 1
    ensures k in Full(f, stage).value
       <==> (k < |f.tree| && f.tree[k].base && (stage >= 1 ==> f.tree[k].preselected)
             && forall b :: 0 <= b < stage - 1 && b < |f.bdtCuts| ==> f.tree[k].scores[b] >= f.bdtCuts[b])
  {
    DrawMeaning(|f.tree|, StagePicks(f.tree, f.bdtCuts, stage));
  }

  /** Counting over all events adds up the weights of those that exceed every cut. */
  lemma CountsOneMore(tree: seq<Event>, e: Event, cuts: Cuts)
    requires |e.scores| == |cuts|
    ensures WeightAll([], 0, cuts) == 0.0
    ensures WeightAll(tree + [e], |tree| + 1, cuts)
         == WeightAll(tree, |tree|, cuts)
            + if e.base && e.preselected && forall b :: 0 <= b < |cuts| ==> e.scores[b] > cuts[b] then e.weight else 0.0
  {
    WeightOfPrefix(tree, e, |tree|, cuts);
    hide WeightAll;
    WeightAllStep(tree + [e], |tree| + 1, cuts);
    NothingCounts(cuts);
  }

  lemma NothingCounts(cuts: Cuts)
    ensures WeightAll([], 0, cuts) == 0.0 && WeightIn([], [], cuts) == 0.0
  {}

  lemma {:induction false} WeightOfPrefix(tree: seq<Event>, e: Event, n: nat, cuts: Cuts)
    requires n <= |tree|
    ensures WeightAll(tree + [e], n, cuts) == WeightAll(tree, n, cuts)
  {
    if n > 0 {
      WeightOfPrefix(tree, e, n - 1, cuts);
      assert (tree + [e])[n - 1] == tree[n - 1];
    }
  }

  /** So does counting inside a list, with the listed ones. */
  lemma ListCountsOneMore(tree: seq<Event>, list: EntryList, k: nat, cuts: Cuts)
    requires HasScores(tree, |cuts|) && k < |tree|
    ensures WeightIn(tree, [], cuts) == 0.0
    ensures var e := tree[k];
      WeightIn(tree, list + [k], cuts)
      == WeightIn(tree, list, cuts)
         + if e.base && e.preselected && forall b :: 0 <= b < |cuts| ==> e.scores[b] > cuts[b] then e.weight else 0.0
  {
    WeightInAppend(tree, list, cuts, k);
  }

  // ----- The list of a scan -----

  /** The two calls that open a scan leave exactly the events passing the scan minima, when no
      earlier scan has selected that stage. */
  lemma ScanList(f: Sample, s: Stages, minima: Cuts)
    requires |minima| <= |s.lists| && f.precutList == Full(f, 1)
    requires minima != [] ==> s.lists[|minima| - 1] == None
    ensures AfterSet(f, AfterSet(f, s, 1, []), 1 + |minima|, minima).active == Some(Select(f.tree, minima))
  {
    var n, inner, outer := |f.tree|, StagePicks(f.tree, f.bdtCuts, 1), Picks(f.tree, minima);
    FilterDraw(n, inner, outer, outer);
    if minima == [] {
      FilterDraw(n, inner, inner, outer);
      FilterDraw(n, inner, inner, inner);
    } else {
      assert minima[..|minima|] == minima;
    }
  }

  /** A later scan on the same file keeps the list of the first, whatever its minima. */
  lemma SecondScanKeepsList(f: Sample, s: Stages, first: Cuts, second: Cuts)
    requires 0 < |first| == |second| <= |s.lists| && s.lists[|first| - 1] == None && f.precutList == Full(f, 1)
    ensures var s1 := AfterSet(f, AfterSet(f, s, 1, []), 1 + |first|, first);
      AfterSet(f, AfterSet(f, s1, 1, []), 1 + |second|, second).active == Some(Select(f.tree, first))
  {
    ScanList(f, s, first);
  }

  // ----- When the list loses nothing -----

  ghost predicate Below(low: Cuts, high: Cuts) {
    |low| == |high| && forall b :: 0 <= b < |low| ==> low[b] <= high[b]
  }

  lemma {:induction false} ListIsEnough(tree: seq<Event>, n: nat, pick: nat -> bool, cuts: Cuts)
    requires n <= |tree|
    requires forall k :: 0 <= k < n && Passes(tree[k], cuts) ==> pick(k)
    ensures WeightIn(tree, Draw(n, pick), cuts) == WeightAll(tree, n, cuts)
  {
    if n > 0 {
      ListIsEnough(tree, n - 1, pick, cuts);
      hide *;
      DrawStep(n, pick);
      WeightInAppend(tree, Draw(n - 1, pick), cuts, n - 1);
      WeightAllStep(tree, n, cuts);
    }
  }

  lemma DrawStep(n: nat, pick: nat -> bool)
    requires n > 0
    ensures Draw(n, pick) == if pick(n - 1) then Draw(n - 1, pick) + [n - 1] else Draw(n - 1, pick)
  {}

  lemma WeightAllStep(tree: seq<Event>, n: nat, cuts: Cuts)
    requires 0 < n <= |tree|
    ensures WeightAll(tree, n, cuts)
         == WeightAll(tree, n - 1, cuts) + if Passes(tree[n - 1], cuts) then tree[n - 1].weight else 0.0
  {}

  lemma WeightInAppend(tree: seq<Event>, list: EntryList, cuts: Cuts, k: nat)
    requires k < |tree|
    ensures WeightIn(tree, list + [k], cuts)
         == WeightIn(tree, list, cuts) + if Passes(tree[k], cuts) then tree[k].weight else 0.0
  {
    assert (list + [k])[..|list|] == list;
  }

  lemma BelowIsEnough(tree: seq<Event>, listed: Cuts, point: Cuts)
    requires Below(listed, point)
    ensures WeightIn(tree, Select(tree, listed), point) == WeightAll(tree, |tree|, point)
  {
    ListIsEnough(tree, |tree|, Picks(tree, listed), point);
  }

  /** Counting at cuts `point` inside the list selected at `listed` agrees with counting over
      the whole tree, whatever the events are, exactly when no cut lies below its listed one. */
  lemma LosslessIff(listed: Cuts, point: Cuts)
    requires |listed| == |point|
    ensures (forall tree :: HasScores(tree, |point|) ==>
               WeightIn(tree, Select(tree, listed), point) == WeightAll(tree, |tree|, point))
       <==> Below(listed, point)
  {
    if Below(listed, point) {
      forall tree | HasScores(tree, |point|)
        ensures WeightIn(tree, Select(tree, listed), point) == WeightAll(tree, |tree|, point)
      {
        BelowIsEnough(tree, listed, point);
      }
    } else {
      var b :| 0 <= b < |point| && listed[b] > point[b];
      var tree := Witness(listed, point, b);
      LostEvent(listed, point, b);
    }
  }

  /** One event just between the two cuts of axis b. */
  function Witness(listed: Cuts, point: Cuts, b: nat): seq<Event>
    requires |listed| == |point|
  {
    [Event(true, true, 1.0, seq(|point|, i requires 0 <= i < |point| => if i == b then listed[i] else point[i] + 1.0))]
  }

  lemma LostEvent(listed: Cuts, point: Cuts, b: nat)
    requires |listed| == |point| && b < |point| && listed[b] > point[b]
    ensures var tree := Witness(listed, point, b);
      && HasScores(tree, |point|)
      && WeightIn(tree, Select(tree, listed), point) == 0.0
      && WeightAll(tree, |tree|, point) == 1.0
  {
    LoneEventIsLost(Witness(listed, point, b), listed, point, b);
  }

  ghost predicate ScoresWithin(tree: seq<Event>, tops: Cuts) {
    HasScores(tree, |tops|) && forall k, b :: 0 <= k < |tree| && 0 <= b < |tops| ==> tree[k].scores[b] <= tops[b]
  }

  /** The same for events whose scores are known to be at most `tops`: a lost event needs a
      score below its listed cut, and all its scores between their cuts and their maxima. */
  lemma LosslessWithinIff(listed: Cuts, point: Cuts, tops: Cuts)
    requires |listed| == |point| == |tops|
    ensures (forall tree :: ScoresWithin(tree, tops) ==>
               WeightIn(tree, Select(tree, listed), point) == WeightAll(tree, |tree|, point))
       <==> Below(listed, point) || exists b :: 0 <= b < |tops| && point[b] >= tops[b]
  {
    if Below(listed, point) {
      LosslessIff(listed, point);
    } else if b :| 0 <= b < |tops| && point[b] >= tops[b] {
      forall tree: seq<Event> | ScoresWithin(tree, tops)
        ensures WeightIn(tree, Select(tree, listed), point) == WeightAll(tree, |tree|, point)
      {
        forall k | 0 <= k < |tree|
          ensures !Passes(tree[k], point)
        {
          assert tree[k].scores[b] <= tops[b];
        }
        ListIsEnough(tree, |tree|, Picks(tree, listed), point);
      }
    } else {
      var b :| 0 <= b < |point| && listed[b] > point[b];
      LostEventWithin(listed, point, tops, b);
    }
  }

  lemma LostEventWithin(listed: Cuts, point: Cuts, tops: Cuts, b: nat)
    requires |listed| == |point| == |tops| && b < |point| && listed[b] > point[b]
    requires forall c :: 0 <= c < |tops| ==> point[c] < tops[c]
    ensures !forall tree :: ScoresWithin(tree, tops) ==>
              WeightIn(tree, Select(tree, listed), point) == WeightAll(tree, |tree|, point)
  {
    var score := if listed[b] <= tops[b] then listed[b] else tops[b];
    var tree := [Event(true, true, 1.0, tops[b := score])];
    LoneEventIsLost(tree, listed, point, b);
  }

  lemma LoneEventIsLost(tree: seq<Event>, listed: Cuts, point: Cuts, b: nat)
    requires |listed| == |point| && b < |point| && HasScores(tree, |point|)
    requires |tree| == 1 && tree[0].weight == 1.0 && Passes(tree[0], point) && tree[0].scores[b] <= listed[b]
    ensures WeightIn(tree, Select(tree, listed), point) == 0.0 && WeightAll(tree, |tree|, point) == 1.0
  {
    assert !Passes(tree[0], listed);
    assert !Picks(tree, listed)(0);
    assert Draw(1, Picks(tree, listed)) == [];
    assert WeightAll(tree, 0, point) == 0.0;
  }
}
