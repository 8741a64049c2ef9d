/** `scan_significance` of hive/src/bdt_sig.cxx: the signal and background files are opened at
    the scan minima, and the grid point with the greatest significance is reported. */
module SignificanceScan {
  import opened EntryPrefilter
  import opened EntryListCache
  import opened CutGrid
  import opened GridIndex
  import opened Wrappers
  import GridScan

  /** `calculate_significance` of the signal, the background and the total signal. */
  type Significance = (real, real, real) -> real

  /** What is printed at the end; without a positive significance there are no cuts. */
  datatype Best = Best(significance: real, point: int, cuts: Option<Cuts>)

  const NO_POINT := -9

  // ----- Counting over several files -----

  /** A file as it is counted: its events, the list they are read through and its POT scale. */
  datatype View = View(tree: seq<Event>, active: Option<EntryList>, scale: real)

  function EntriesIn(v: View, cuts: Cuts): real {
    if v.active.Some? then WeightIn(v.tree, v.active.value, cuts) else WeightAll(v.tree, |v.tree|, cuts)
  }

  /** Scaled weight that is counted through the lists. */
  function CountIn(views: seq<View>, cuts: Cuts): real {
    if views == [] then 0.0
    else CountIn(views[..|views| - 1], cuts) + EntriesIn(views[|views| - 1], cuts) * views[|views| - 1].scale
  }

  /** Scaled weight over all entries. */
  function CountAll(views: seq<View>, cuts: Cuts): real {
    if views == [] then 0.0
    else
      var v := views[|views| - 1];
      CountAll(views[..|views| - 1], cuts) + WeightAll(v.tree, |v.tree|, cuts) * v.scale
  }

  /** Each file adds its weight times its scale, through its list if it has one. */
  lemma CountsOneFileMore(views: seq<View>, v: View, cuts: Cuts)
    ensures CountIn([], cuts) == CountAll([], cuts) == 0.0
    ensures v.active == None ==>
      CountIn(views + [v], cuts) == CountIn(views, cuts) + WeightAll(v.tree, |v.tree|, cuts) * v.scale
    ensures v.active != None ==>
      CountIn(views + [v], cuts) == CountIn(views, cuts) + WeightIn(v.tree, v.active.value, cuts) * v.scale
    ensures CountAll(views + [v], cuts) == CountAll(views, cuts) + WeightAll(v.tree, |v.tree|, cuts) * v.scale
  {
    assert (views + [v])[..|views|] == views;
  }

  function ViewsOf(files: seq<StageFile>, scales: seq<real>): (views: seq<View>)
    requires |scales| == |files|
    reads files
    ensures |views| == |files|
  {
    seq(|files|, i requires 0 <= i < |files| reads files => View(files[i].f.tree, files[i].active, scales[i]))
  }

  /** The sum over the files at one set of cuts. */
  method Count(files: seq<StageFile>, scales: seq<real>, cuts: Cuts) returns (total: real)
    requires |scales| == |files|
    ensures total == CountIn(ViewsOf(files, scales), cuts)
  {
    total := 0.0;
    ghost var views := ViewsOf(files, scales);
    for i := 0 to |files|
      invariant total == CountIn(views[..i], cuts)
    {
      assert views[..i + 1][..i] == views[..i];
      var entries := files[i].GetEntries(cuts);
      total := total + entries * scales[i];
    }
    assert views[..|files|] == views;
  }

  // ----- Opening the files -----

  /** Setting a stage twice is setting it once, so a file may stand in the list twice. */
  lemma SetTwice(f: Sample, s: Stages, stage: int, cuts: Cuts)
    requires IsStage(s, stage) && EnoughCuts(s, stage, cuts)
    ensures var t := AfterSet(f, s, stage, cuts); EnoughCuts(t, stage, cuts) && AfterSet(f, t, stage, cuts) == t
  {}

  method SetAll(files: seq<StageFile>, stage: int, cuts: Cuts)
    requires forall x :: x in files ==> IsStage(x.State(), stage) && EnoughCuts(x.State(), stage, cuts)
    modifies files
    ensures forall x :: x in files ==> x.State() == AfterSet(x.f, old(x.State()), stage, cuts)
  {
    for i := 0 to |files|
      invariant forall x :: x in files[..i] ==> x.State() == AfterSet(x.f, old(x.State()), stage, cuts)
      invariant forall x :: x in files && x !in files[..i] ==> x.State() == old(x.State())
    {
      var file := files[i];
      assert files[..i + 1] == files[..i] + [file];
      SetTwice(file.f, old(file.State()), stage, cuts);
      var exits := file.SetStageEntryList(stage, cuts);
    }
    assert files[..|files|] == files;
  }

  function Opened(f: Sample, s: Stages, minima: Cuts): Stages
    requires |minima| <= |s.lists|
  {
    AfterSet(f, AfterSet(f, s, 1, []), 1 + |minima|, minima)
  }

  /** The preselection list is the right one, and no earlier scan has selected stage 1 + n. */
  ghost predicate IsUnscanned(f: Sample, s: Stages, n: nat) {
    f.precutList == Full(f, 1) && n <= |s.lists| && (n > 0 ==> s.lists[n - 1] == None)
  }

  method OpenAll(files: seq<StageFile>, minima: Cuts)
    requires forall x :: x in files ==> |minima| <= |x.lists|
    modifies files
    ensures forall x :: x in files ==> x.State() == Opened(x.f, old(x.State()), minima)
    ensures (forall x :: x in files ==> old(IsUnscanned(x.f, x.State(), |minima|))) ==>
              forall x :: x in files ==> x.active == Some(Select(x.f.tree, minima))
  {
    SetAll(files, 1, []);
    SetAll(files, 1 + |minima|, minima);
    forall x | x in files && old(IsUnscanned(x.f, x.State(), |minima|))
      ensures x.active == Some(Select(x.f.tree, minima))
    {
      ScanList(x.f, old(x.State()), minima);
      assert x.State() == Opened(x.f, old(x.State()), minima);
    }
  }

  // ----- The scan -----

  function GridOf(axes: seq<Axis>): (points: Axes)
    ensures IsGrid(axes, points)
  {
    seq(|axes|, b requires 0 <= b < |axes| => CutPositions(axes[b]))
  }

  /** The significance of the scaled counts at one grid point. */
  function MetricIn(sig: seq<View>, bkg: seq<View>, significance: Significance, totalSig: real): GridScan.Metric {
    cuts => significance(CountIn(sig, cuts), CountIn(bkg, cuts), totalSig)
  }

  function MetricAll(sig: seq<View>, bkg: seq<View>, significance: Significance, totalSig: real): GridScan.Metric {
    cuts => significance(CountAll(sig, cuts), CountAll(bkg, cuts), totalSig)
  }

  /** The first grid point to reach the greatest value, if any value is positive at all. */
  ghost predicate IsBest(best: Best, metric: GridScan.Metric, points: Axes) {
    && (forall idx :: InGrid(idx, points) ==> metric(PointAt(idx, points)) <= best.significance)
    && (best.point == NO_POINT <==> forall idx :: InGrid(idx, points) ==> metric(PointAt(idx, points)) <= 0.0)
    && (best.point == NO_POINT ==> best.significance == 0.0 && best.cuts == None)
    && (best.point != NO_POINT ==> IsFirstBest(best, metric, points))
  }

  ghost predicate IsFirstBest(best: Best, metric: GridScan.Metric, points: Axes) {
    && NonEmptyAxes(points) && 0 <= best.point < TotalPoints(points)
    && InGrid(Digits(best.point, points), points)
    && best.cuts == Some(PointAt(Digits(best.point, points), points))
    && best.significance == metric(best.cuts.value) > 0.0
    && forall g :: 0 <= g < best.point ==> GridScan.At(metric, points, g) < best.significance
  }

  lemma {:induction false} PointsNeedAxes(points: Axes)
    ensures TotalPoints(points) > 0 <==> NonEmptyAxes(points)
  {
    if points != [] {
      PointsNeedAxes(points[..|points| - 1]);
      if NonEmptyAxes(points) {
        assert NonEmptyAxes(points[..|points| - 1]);
      }
    }
  }

  lemma NewBest(metric: GridScan.Metric, points: Axes, i: nat)
    requires NonEmptyAxes(points) && i < TotalPoints(points) && GridScan.At(metric, points, i) > 0.0
    requires forall g :: 0 <= g < i ==> GridScan.At(metric, points, g) < GridScan.At(metric, points, i)
    ensures InGrid(Digits(i, points), points)
    ensures var cuts := PointAt(Digits(i, points), points);
      IsFirstBest(Best(GridScan.At(metric, points, i), i, Some(cuts)), metric, points)
  {
    DigitsInGrid(i, points);
  }

  /** The significance at grid point i. */
  method TryPoint(sig: seq<StageFile>, sigScales: seq<real>, bkg: seq<StageFile>, bkgScales: seq<real>, points: Axes,
                  i: nat, significance: Significance, totalSig: real) returns (value: real, curPt: seq<real>)
    requires |sigScales| == |sig| && |bkgScales| == |bkg| && NonEmptyAxes(points)
    ensures InGrid(Digits(i, points), points) && curPt == PointAt(Digits(i, points), points)
    ensures var metric := MetricIn(ViewsOf(sig, sigScales), ViewsOf(bkg, bkgScales), significance, totalSig);
      value == metric(curPt) == GridScan.At(metric, points, i)
  {
    hide CountIn, ViewsOf;
    curPt := GrabPoint(i, points);
    var signal := Count(sig, sigScales, curPt);
    var background := Count(bkg, bkgScales, curPt);
    value := significance(signal, background, totalSig);
  }

  /** The loop over the grid points. */
  method WalkGrid(sig: seq<StageFile>, sigScales: seq<real>, bkg: seq<StageFile>, bkgScales: seq<real>, points: Axes,
                  maxPts: nat, significance: Significance, totalSig: real) returns (best: Best)
    requires |sigScales| == |sig| && |bkgScales| == |bkg| && maxPts == TotalPoints(points) < TWO32 / 2
    ensures IsBest(best, MetricIn(ViewsOf(sig, sigScales), ViewsOf(bkg, bkgScales), significance, totalSig), points)
  {
    ghost var metric := MetricIn(ViewsOf(sig, sigScales), ViewsOf(bkg, bkgScales), significance, totalSig);
    PointsNeedAxes(points);
    hide *;
    best := Best(0.0, NO_POINT, None);
    for i := 0 to maxPts
      invariant NonEmptyAxes(points) || i == 0
      invariant forall g :: 0 <= g < i ==> GridScan.At(metric, points, g) <= best.significance
      invariant best.significance >= 0.0
      invariant best.point == NO_POINT ==> best == Best(0.0, NO_POINT, None)
      invariant best.point != NO_POINT ==> IsFirstBest(best, metric, points)
    {
      var value, curPt := TryPoint(sig, sigScales, bkg, bkgScales, points, i, significance, totalSig);
      if value > best.significance {
        NewBest(metric, points, i);
        best := Best(value, i, Some(curPt));
      }
    }
    BestOfAll(best, metric, points);
  }

  /** Every tuple is met, so the best of the walk is the best of the grid. */
  lemma BestOfAll(best: Best, metric: GridScan.Metric, points: Axes)
    requires TotalPoints(points) < TWO32 / 2
    requires NonEmptyAxes(points) ==>
      forall g :: 0 <= g < TotalPoints(points) ==> GridScan.At(metric, points, g) <= best.significance
    requires best.point == NO_POINT ==> best == Best(0.0, NO_POINT, None)
    requires best.point != NO_POINT ==> IsFirstBest(best, metric, points)
    ensures IsBest(best, metric, points)
  {
    forall idx | InGrid(idx, points)
      ensures metric(PointAt(idx, points)) <= best.significance
    {
      DigitsEncode(idx, points);
      assert GridScan.At(metric, points, Encode(idx, points)) <= best.significance;
    }
  }

  ghost predicate AllSafe(axes: seq<Axis>) {
    forall b :: 0 <= b < |axes| ==> IsSafe(axes[b])
  }

  lemma ViewsReadAbove(files: seq<StageFile>, scales: seq<real>, minima: Cuts)
    requires |scales| == |files| && forall x :: x in files ==> x.active == Some(Select(x.f.tree, minima))
    ensures ReadAbove(ViewsOf(files, scales), minima)
  {
    forall i | 0 <= i < |files|
      ensures ViewsOf(files, scales)[i].active == Some(Select(ViewsOf(files, scales)[i].tree, minima))
    {
      assert files[i] in files;
    }
  }

  /** What a scan reports: the best point for the counts through the lists, and, if the files
      are read above the minima of a safe grid, for the counts over all entries. */
  ghost predicate IsReport(best: Best, totalSig: real, sig: seq<View>, bkg: seq<View>, axes: seq<Axis>,
                           significance: Significance) {
    && totalSig == CountIn(sig, [])
    && IsBest(best, MetricIn(sig, bkg, significance, totalSig), GridOf(axes))
    && (ReadAbove(sig, Minima(axes)) && ReadAbove(bkg, Minima(axes)) && AllSafe(axes) ==>
          && totalSig == CountAll(sig, Minima(axes))
          && IsBest(best, MetricAll(sig, bkg, significance, totalSig), GridOf(axes)))
  }

  lemma ReportIs(best: Best, totalSig: real, sig: seq<View>, bkg: seq<View>, axes: seq<Axis>,
                 significance: Significance)
    requires totalSig == CountIn(sig, [])
    requires IsBest(best, MetricIn(sig, bkg, significance, totalSig), GridOf(axes))
    ensures IsReport(best, totalSig, sig, bkg, axes, significance)
  {
    hide IsBest, CountIn, CountAll, AllSafe, ReadAbove;
    if ReadAbove(sig, Minima(axes)) && ReadAbove(bkg, Minima(axes)) && AllSafe(axes) {
      TotalIsAboveMinima(sig, Minima(axes));
      BestOverAllEntries(best, sig, bkg, axes, significance, totalSig);
    }
  }

  /** The scan of opened files: the total signal, counted with the preselection cuts, and then
      every grid point. */
  method ScanOpened(sig: seq<StageFile>, sigScales: seq<real>, bkg: seq<StageFile>, bkgScales: seq<real>,
                    axes: seq<Axis>, points: Axes, maxPts: nat, significance: Significance)
    returns (best: Best, totalSig: real)
    requires |sigScales| == |sig| && |bkgScales| == |bkg|
    requires points == GridOf(axes) && maxPts == TotalPoints(points) < TWO32 / 2
    ensures IsReport(best, totalSig, ViewsOf(sig, sigScales), ViewsOf(bkg, bkgScales), axes, significance)
  {
    hide IsReport, IsBest, CountIn, AllSafe, ReadAbove;
    totalSig := Count(sig, sigScales, []);
    best := WalkGrid(sig, sigScales, bkg, bkgScales, points, maxPts, significance, totalSig);
    ReportIs(best, totalSig, ViewsOf(sig, sigScales), ViewsOf(bkg, bkgScales), axes, significance);
  }

  /** Both lists of files. */
  method OpenFiles(sig: seq<StageFile>, ghost sigScales: seq<real>, bkg: seq<StageFile>, ghost bkgScales: seq<real>,
                   minima: Cuts)
    requires |sigScales| == |sig| && |bkgScales| == |bkg|
    requires forall x :: x in sig + bkg ==> |minima| <= |x.lists|
    modifies sig, bkg
    ensures forall x :: x in sig + bkg ==> x.State() == Opened(x.f, old(x.State()), minima)
    ensures (forall x :: x in sig + bkg ==> old(IsUnscanned(x.f, x.State(), |minima|))) ==>
      ReadAbove(ViewsOf(sig, sigScales), minima) && ReadAbove(ViewsOf(bkg, bkgScales), minima)
  {
    hide IsUnscanned, ReadAbove, Opened, Select;
    OpenAll(sig + bkg, minima);
    if forall x :: x in sig + bkg ==> x.active == Some(Select(x.f.tree, minima)) {
      ViewsReadAbove(sig, sigScales, minima);
      ViewsReadAbove(bkg, bkgScales, minima);
    }
  }

  /** The whole scan: the files are opened at the preselection and at the minima. On files with
      the right preselection list and without an earlier scan they are read above the minima. */
  method ScanSignificance(sig: seq<StageFile>, sigScales: seq<real>, bkg: seq<StageFile>, bkgScales: seq<real>,
                          axes: seq<Axis>, significance: Significance) returns (best: Best, totalSig: real)
    requires |sigScales| == |sig| && |bkgScales| == |bkg| && TotalPoints(GridOf(axes)) < TWO32 / 2
    requires forall x :: x in sig + bkg ==> |axes| <= |x.lists|
    modifies sig, bkg
    ensures forall x :: x in sig + bkg ==> x.State() == Opened(x.f, old(x.State()), Minima(axes))
    ensures IsReport(best, totalSig, ViewsOf(sig, sigScales), ViewsOf(bkg, bkgScales), axes, significance)
    ensures (forall x :: x in sig + bkg ==> old(IsUnscanned(x.f, x.State(), |axes|))) ==>
      ReadAbove(ViewsOf(sig, sigScales), Minima(axes)) && ReadAbove(ViewsOf(bkg, bkgScales), Minima(axes))
  {
    hide IsReport, IsUnscanned, ReadAbove, CutPositions, Opened;
    var points, maxPts := SetupCutGrid(axes);
    assert points == GridOf(axes);
    OpenFiles(sig, sigScales, bkg, bkgScales, Minima(axes));
    best, totalSig := ScanOpened(sig, sigScales, bkg, bkgScales, axes, points, maxPts, significance);
  }

  // ----- What the reported point is -----

  /** Every file is read through the list of its events above the minima. */
  ghost predicate ReadAbove(views: seq<View>, minima: Cuts) {
    forall i :: 0 <= i < |views| ==> views[i].active == Some(Select(views[i].tree, minima))
  }

  lemma {:induction false} CountsAgree(views: seq<View>, minima: Cuts, cuts: Cuts)
    requires ReadAbove(views, minima) && Below(minima, cuts)
    ensures CountIn(views, cuts) == CountAll(views, cuts)
  {
    if views != [] {
      var n := |views| - 1;
      CountsAgree(views[..n], minima, cuts);
      BelowIsEnough(views[n].tree, minima, cuts);
    }
  }

  /** When no cut of any axis lies below its minimum, the reported point is the best for the
      counts over all entries of all files. */
  lemma BestOverAllEntries(best: Best, sig: seq<View>, bkg: seq<View>, axes: seq<Axis>, significance: Significance,
                           totalSig: real)
    requires ReadAbove(sig, Minima(axes)) && ReadAbove(bkg, Minima(axes))
    requires AllSafe(axes)
    ensures IsBest(best, MetricIn(sig, bkg, significance, totalSig), GridOf(axes))
       <==> IsBest(best, MetricAll(sig, bkg, significance, totalSig), GridOf(axes))
  {
    var inside, all := MetricIn(sig, bkg, significance, totalSig), MetricAll(sig, bkg, significance, totalSig);
    var points := GridOf(axes);
    forall idx | InGrid(idx, points)
      ensures inside(PointAt(idx, points)) == all(PointAt(idx, points))
    {
      GridAboveMinima(axes, points, idx);
      CountsAgree(sig, Minima(axes), PointAt(idx, points));
      CountsAgree(bkg, Minima(axes), PointAt(idx, points));
    }
    if IsBest(best, inside, points) {
      SameBest(best, inside, all, points);
    }
    if IsBest(best, all, points) {
      SameBest(best, all, inside, points);
    }
  }

  lemma SameBest(best: Best, metric: GridScan.Metric, other: GridScan.Metric, points: Axes)
    requires forall idx :: InGrid(idx, points) ==> metric(PointAt(idx, points)) == other(PointAt(idx, points))
    requires IsBest(best, metric, points)
    ensures IsBest(best, other, points)
  {
    if best.point != NO_POINT {
      forall g | 0 <= g < best.point
        ensures GridScan.At(other, points, g) < best.significance
      {
        DigitsInGrid(g, points);
        assert GridScan.At(metric, points, g) < best.significance;
      }
    }
  }

  // ----- The total signal -----

  /** It is counted inside the lists as well, so it is the signal above the minima. */
  lemma {:induction false} TotalIsAboveMinima(views: seq<View>, minima: Cuts)
    requires ReadAbove(views, minima)
    ensures CountIn(views, []) == CountAll(views, minima)
  {
    if views != [] {
      var n := |views| - 1;
      TotalIsAboveMinima(views[..n], minima);
      InsideIsAbove(views[n].tree, |views[n].tree|, minima);
    }
  }

  lemma {:induction false} InsideIsAbove(tree: seq<Event>, n: nat, minima: Cuts)
    requires n <= |tree|
    ensures WeightIn(tree, Draw(n, Picks(tree, minima)), []) == WeightAll(tree, n, minima)
  {
    if n > 0 {
      var pick := Picks(tree, minima);
      InsideIsAbove(tree, n - 1, minima);
      DrawStep(n, pick);
      WeightInAppend(tree, Draw(n - 1, pick), [], n - 1);
      WeightAllStep(tree, n, minima);
    }
  }

  /** It is the preselected signal, whatever the events are, only without any BDT. */
  lemma TotalIsPreselectedIff(minima: Cuts)
    ensures (forall tree :: HasScores(tree, |minima|) ==>
               WeightIn(tree, Select(tree, minima), []) == WeightAll(tree, |tree|, []))
       <==> minima == []
  {
    if minima == [] {
      forall tree
        ensures WeightIn(tree, Select(tree, minima), []) == WeightAll(tree, |tree|, [])
      {
        InsideIsAbove(tree, |tree|, minima);
      }
    } else {
      var tree := [Event(true, true, 1.0, minima)];
      InsideIsAbove(tree, 1, minima);
      assert !(tree[0].scores[0] > minima[0]);
      assert Passes(tree[0], []);
      assert WeightAll(tree, 0, minima) == WeightAll(tree, 0, []) == 0.0;
    }
  }
}
