/** The grid of cuts that the scans walk over (`setup_bdt_cut_grid` of hive/src/bdt_sig.cxx),
    and when counting inside the list selected at the scan minima loses nothing on it. */
module CutGrid {
  import opened EntryPrefilter
  import GridIndex

  /** `std::round`: halves away from zero. */
  function Round(x: real): (n: int)
    ensures -0.5 <= n as real - x <= 0.5
    ensures (x > 0.0 ==> n as real - x != -0.5) && (x < 0.0 ==> n as real - x != 0.5)
  {
    if x >= 0.0 then (x + 0.5).Floor else -((-x + 0.5).Floor)
  }

  const PRECISION := 0.001

  /** `round_to(value, 0.001)` */
  function RoundTo(value: real): real {
    Round(value / PRECISION) as real * PRECISION
  }

  lemma RoundMonotone(x: real, y: real)
    requires x <= y
    ensures Round(x) <= Round(y)
  {}

  lemma RoundToMonotone(x: real, y: real)
    requires x <= y
    ensures RoundTo(x) <= RoundTo(y)
  {
    RoundMonotone(x / PRECISION, y / PRECISION);
  }

  lemma RoundToMultiple(k: int)
    ensures RoundTo(k as real * PRECISION) == k as real * PRECISION
  {
    assert (k as real * PRECISION) / PRECISION == k as real;
    assert Round(k as real) == k;
  }

  datatype Axis = Axis(min: real, max: real, steps: nat)

  /** The range of one BDT: the configured one, or an automatic one from 0 in ten steps when
      the configured maximum is the -99 marker. */
  function Range(scanMin: real, scanMax: real, scanSteps: nat, fileMaxima: seq<real>): Axis {
    if scanMax != -99.0 then Axis(scanMin, scanMax, scanSteps)
    else Axis(0.0, if fileMaxima == [] then 1.0 else Largest(fileMaxima), 10)
  }

  /** `std::max` over the files, starting from the marker. */
  function Largest(xs: seq<real>): real {
    if xs == [] then -99.0
    else
      var m := Largest(xs[..|xs| - 1]);
      if m < xs[|xs| - 1] then xs[|xs| - 1] else m
  }

  /** The first loop of `setup_bdt_cut_grid` for one BDT. */
  method ScanRange(scanMin: real, scanMax: real, scanSteps: nat, fileMaxima: seq<real>) returns (a: Axis)
    ensures a == Range(scanMin, scanMax, scanSteps, fileMaxima)
    ensures scanMax != -99.0 ==> a == Axis(scanMin, scanMax, scanSteps)
    ensures scanMax == -99.0 ==>
      && a.min == 0.0 && a.steps == 10 && (fileMaxima == [] ==> a.max == 1.0)
      && (fileMaxima != [] ==>
            (a.max == -99.0 || a.max in fileMaxima) && a.max >= -99.0 && forall x :: x in fileMaxima ==> x <= a.max)
  {
    var min, max, steps := scanMin, scanMax, scanSteps;
    if max == -99.0 {
      if fileMaxima == [] {
        max := 1.0;
      }
      for i := 0 to |fileMaxima|
        invariant max == if fileMaxima == [] then 1.0 else Largest(fileMaxima[..i])
        invariant fileMaxima != [] ==> max >= -99.0 && (max == -99.0 || max in fileMaxima)
        invariant forall x :: x in fileMaxima[..i] ==> x <= max
      {
        assert fileMaxima[..i + 1] == fileMaxima[..i] + [fileMaxima[i]];
        if max < fileMaxima[i] {
          max := fileMaxima[i];
        }
      }
      assert fileMaxima[..|fileMaxima|] == fileMaxima;
      min, steps := 0.0, 10;
    }
    a := Axis(min, max, steps);
  }

  function StepOf(a: Axis): real
    requires a.steps > 0
  {
    (a.max - a.min) / a.steps as real
  }

  function Offset(ip: nat, step: real): real { ip as real * step }

  function CutAt(a: Axis, ip: nat): real
    requires ip < a.steps
  {
    RoundTo(a.min + Offset(ip, StepOf(a)))
  }

  function CutPositions(a: Axis): (cuts: seq<real>)
    ensures |cuts| == a.steps
  {
    seq(a.steps, ip requires 0 <= ip < a.steps => CutAt(a, ip))
  }

  /** p is x to three decimals, halves away from zero. */
  predicate IsNearestThousandth(p: real, x: real) {
    && (1000.0 * p).Floor as real == 1000.0 * p
    && -0.0005 <= p - x <= 0.0005 && (x > 0.0 ==> p - x != -0.0005) && (x < 0.0 ==> p - x != 0.0005)
  }

  lemma RoundToIsNearest(x: real)
    ensures IsNearestThousandth(RoundTo(x), x)
  {
    var n := Round(x / PRECISION);
    hide Round;
    assert x / PRECISION == 1000.0 * x;
    assert 1000.0 * RoundTo(x) == n as real;
  }

  /** Step ip of `steps` equal ones from the minimum to the maximum. */
  function Position(a: Axis, ip: int): real
    requires a.steps > 0
  {
    a.min + ip as real * ((a.max - a.min) / a.steps as real)
  }

  lemma CutIsNearest(a: Axis, ip: nat)
    requires ip < a.steps
    ensures IsNearestThousandth(CutAt(a, ip), Position(a, ip))
  {
    RoundToIsNearest(a.min + Offset(ip, StepOf(a)));
    hide IsNearestThousandth, RoundTo;
  }

  /** The positions along one axis; the step is not used when there are none. */
  method AxisCuts(a: Axis) returns (cuts: seq<real>)
    ensures cuts == CutPositions(a)
  {
    hide RoundTo, StepOf;
    cuts := [];
    if a.steps > 0 {
      var step := StepOf(a);
      for ip := 0 to a.steps
        invariant |cuts| == ip && forall k :: 0 <= k < ip ==> cuts[k] == CutAt(a, k)
      {
        cuts := cuts + [RoundTo(a.min + ip as real * step)];
      }
    }
  }

  /** The second loop of `setup_bdt_cut_grid`. */
  method SetupCutGrid(axes: seq<Axis>) returns (points: GridIndex.Axes, totalPts: int)
    ensures IsGrid(axes, points) && totalPts == GridIndex.TotalPoints(points)
    // Equidistant positions from the minimum on, the maximum excepted, each to the nearest 0.001.
    ensures |points| == |axes| && forall b :: 0 <= b < |axes| ==> |points[b]| == axes[b].steps
    ensures forall b, ip :: 0 <= b < |axes| && 0 <= ip < axes[b].steps ==>
      IsNearestThousandth(points[b][ip], Position(axes[b], ip))
  {

    hide IsNearestThousandth;
    points, totalPts := [], 1;
    for i := 0 to |axes|
      invariant |points| == i && forall b :: 0 <= b < i ==> points[b] == CutPositions(axes[b])
      invariant totalPts == GridIndex.TotalPoints(points)
    {
      totalPts := totalPts * axes[i].steps;
      var cuts := AxisCuts(axes[i]);
      assert (points + [cuts])[..i] == points;
      points := points + [cuts];
    }
    GridIsNearest(axes, points);
  }

  lemma GridIsNearest(axes: seq<Axis>, points: GridIndex.Axes)
    requires IsGrid(axes, points)
    ensures forall b, ip :: 0 <= b < |axes| && 0 <= ip < axes[b].steps ==>
      IsNearestThousandth(points[b][ip], Position(axes[b], ip))
  {
    hide IsNearestThousandth, CutAt, Position;
    forall b, ip | 0 <= b < |axes| && 0 <= ip < axes[b].steps
      ensures IsNearestThousandth(points[b][ip], Position(axes[b], ip))
    {
      var a := axes[b];
      assert points[b][ip] == CutAt(a, ip);
      CutIsNearest(a, ip);
    }
  }

  ghost predicate IsGrid(axes: seq<Axis>, points: GridIndex.Axes) {
    |points| == |axes| && forall b :: 0 <= b < |axes| ==> points[b] == CutPositions(axes[b])
  }

  function Minima(axes: seq<Axis>): Cuts {
    seq(|axes|, b requires 0 <= b < |axes| => axes[b].min)
  }

  // ----- The lowest cut -----

  lemma TimesMonotone(x: real, y: real, step: real)
    requires x <= y
    ensures step >= 0.0 ==> x * step <= y * step
    ensures step <= 0.0 ==> x * step >= y * step
  {
    assert (y - x) * step == y * step - x * step;
    if step >= 0.0 {
      assert (y - x) * step >= 0.0;
    } else {
      assert (y - x) * -step >= 0.0;
    }
  }

  /** The position of the lowest cut: the first, or the last when the range runs downwards. */
  function LowAt(a: Axis): nat
    requires a.steps > 0
  {
    if CutAt(a, 0) <= CutAt(a, a.steps - 1) then 0 else a.steps - 1
  }

  function Low(a: Axis): real
    requires a.steps > 0
  {
    CutAt(a, LowAt(a))
  }

  lemma LowIsLowest(a: Axis, ip: nat)
    requires ip < a.steps
    ensures Low(a) <= CutAt(a, ip)
  {
    hide CutAt, StepOf;
    CutsMonotone(a, 0, ip);
    CutsMonotone(a, ip, a.steps - 1);
  }

  lemma OffsetMonotone(ip: nat, iq: nat, step: real)
    requires ip <= iq
    ensures step >= 0.0 ==> Offset(ip, step) <= Offset(iq, step)
    ensures step <= 0.0 ==> Offset(ip, step) >= Offset(iq, step)
  {
    TimesMonotone(ip as real, iq as real, step);
  }

  lemma CutsMonotone(a: Axis, ip: nat, iq: nat)
    requires ip <= iq < a.steps
    ensures StepOf(a) >= 0.0 ==> CutAt(a, ip) <= CutAt(a, iq)
    ensures StepOf(a) <= 0.0 ==> CutAt(a, ip) >= CutAt(a, iq)
  {
    hide RoundTo, StepOf, Offset;
    var step := StepOf(a);
    var dx, dy := Offset(ip, step), Offset(iq, step);
    OffsetMonotone(ip, iq, step);
    if step >= 0.0 {
      RoundToMonotone(a.min + dx, a.min + dy);
    }
    if step <= 0.0 {
      RoundToMonotone(a.min + dy, a.min + dx);
    }
  }

  lemma FirstCut(a: Axis)
    requires a.steps > 0
    ensures CutAt(a, 0) == RoundTo(a.min)
  {}

  /** No cut of the axis lies below its minimum. */
  predicate IsSafe(a: Axis) {
    a.steps > 0 ==> CutAt(a, 0) >= a.min && CutAt(a, a.steps - 1) >= a.min
  }

  // ----- When the scan loses nothing -----

  /** At every grid point, for all events. */
  ghost predicate ScanIsLossless(axes: seq<Axis>, points: GridIndex.Axes)
  {
    forall idx, tree :: GridIndex.InGrid(idx, points) && HasScores(tree, |points|) ==>
      var cuts := GridIndex.PointAt(idx, points);
      WeightIn(tree, Select(tree, Minima(axes)), cuts) == WeightAll(tree, |tree|, cuts)
  }

  /** The tuple of the lowest cuts. */
  function LowIndex(axes: seq<Axis>): seq<int>
    requires forall b :: 0 <= b < |axes| ==> axes[b].steps > 0
  {
    seq(|axes|, b requires 0 <= b < |axes| => LowAt(axes[b]))
  }

  lemma LowPoint(axes: seq<Axis>, points: GridIndex.Axes)
    requires IsGrid(axes, points) && forall b :: 0 <= b < |axes| ==> axes[b].steps > 0
    ensures var idx := LowIndex(axes);
      GridIndex.InGrid(idx, points) && forall b :: 0 <= b < |axes| ==> GridIndex.PointAt(idx, points)[b] == Low(axes[b])
  {
    hide CutAt;
  }

  /** The scan counts correctly inside the list built at the minima, at every grid point and
      for all events, exactly when there are no grid points or neither the first nor the last
      cut of any axis lies below its minimum. */
  lemma ScanIsLosslessIff(axes: seq<Axis>, points: GridIndex.Axes)
    requires IsGrid(axes, points)
    ensures ScanIsLossless(axes, points)
       <==> (exists b :: 0 <= b < |axes| && axes[b].steps == 0) || forall b :: 0 <= b < |axes| ==> IsSafe(axes[b])
  {
    hide CutAt, WeightIn, WeightAll, Select;
    if b :| 0 <= b < |axes| && axes[b].steps == 0 {
      assert points[b] == [];
    } else if forall b :: 0 <= b < |axes| ==> IsSafe(axes[b]) {
      forall idx, tree | GridIndex.InGrid(idx, points) && HasScores(tree, |points|)
        ensures var cuts := GridIndex.PointAt(idx, points);
          WeightIn(tree, Select(tree, Minima(axes)), cuts) == WeightAll(tree, |tree|, cuts)
      {
        GridAboveMinima(axes, points, idx);
        LosslessIff(Minima(axes), GridIndex.PointAt(idx, points));
      }
    } else {
      var b :| 0 <= b < |axes| && !IsSafe(axes[b]);
      LowPoint(axes, points);
      var cuts := GridIndex.PointAt(LowIndex(axes), points);
      assert cuts[b] < Minima(axes)[b];
      LostEvent(Minima(axes), cuts, b);
    }
  }

  lemma GridAboveMinima(axes: seq<Axis>, points: GridIndex.Axes, idx: seq<int>)
    requires IsGrid(axes, points) && GridIndex.InGrid(idx, points)
    requires forall b :: 0 <= b < |axes| ==> IsSafe(axes[b])
    ensures Below(Minima(axes), GridIndex.PointAt(idx, points))
  {
    forall b | 0 <= b < |axes|
      ensures axes[b].min <= points[b][idx[b]]
    {
      LowIsLowest(axes[b], idx[b]);
    }
  }

  /** At every grid point, for all events whose scores stay within `tops`. */
  ghost predicate ScanIsLosslessWithin(axes: seq<Axis>, points: GridIndex.Axes, tops: Cuts) {
    forall idx, tree :: GridIndex.InGrid(idx, points) && ScoresWithin(tree, tops) ==>
      var cuts := GridIndex.PointAt(idx, points);
      WeightIn(tree, Select(tree, Minima(axes)), cuts) == WeightAll(tree, |tree|, cuts)
  }

  /** No score within `top` passes any cut of the axis. */
  predicate IsUnreached(a: Axis, top: real) {
    a.steps > 0 ==> Low(a) >= top
  }

  ghost predicate SomeUnreached(axes: seq<Axis>, tops: Cuts)
    requires |tops| == |axes|
  {
    exists b :: 0 <= b < |axes| && IsUnreached(axes[b], tops[b])
  }

  /** When the scores are known to stay within `tops`, a BDT that passes none of its cuts makes
      the scan correct as well; nothing else does. */
  lemma ScanIsLosslessWithinIff(axes: seq<Axis>, points: GridIndex.Axes, tops: Cuts)
    requires IsGrid(axes, points) && |tops| == |axes|
    ensures ScanIsLosslessWithin(axes, points, tops)
       <==> (SomeUnreached(axes, tops) || forall b :: 0 <= b < |axes| ==> IsSafe(axes[b]))
  {
    hide CutAt, WeightIn, WeightAll, Select;
    if SomeUnreached(axes, tops) || forall b :: 0 <= b < |axes| ==> IsSafe(axes[b]) {
      forall idx, tree | GridIndex.InGrid(idx, points) && ScoresWithin(tree, tops)
        ensures var cuts := GridIndex.PointAt(idx, points);
          WeightIn(tree, Select(tree, Minima(axes)), cuts) == WeightAll(tree, |tree|, cuts)
      {
        GridPointCounts(axes, points, tops, idx);
        LosslessWithinIff(Minima(axes), GridIndex.PointAt(idx, points), tops);
      }
    } else {
      var b :| 0 <= b < |axes| && !IsSafe(axes[b]);
      LowPoint(axes, points);
      var cuts := GridIndex.PointAt(LowIndex(axes), points);
      assert cuts[b] < Minima(axes)[b];
      LostEventWithin(Minima(axes), cuts, tops, b);
    }
  }

  lemma GridPointCounts(axes: seq<Axis>, points: GridIndex.Axes, tops: Cuts, idx: seq<int>)
    requires IsGrid(axes, points) && |tops| == |axes| && GridIndex.InGrid(idx, points)
    requires SomeUnreached(axes, tops) || forall b :: 0 <= b < |axes| ==> IsSafe(axes[b])
    ensures var cuts := GridIndex.PointAt(idx, points);
      Below(Minima(axes), cuts) || exists b :: 0 <= b < |tops| && cuts[b] >= tops[b]
  {
    if b :| 0 <= b < |axes| && IsUnreached(axes[b], tops[b]) {
      LowIsLowest(axes[b], idx[b]);
      assert GridIndex.PointAt(idx, points)[b] >= tops[b];
    } else {
      GridAboveMinima(axes, points, idx);
    }
  }

  /** A minimum given to three decimals is safe for a range that runs upwards. */
  lemma ThreeDecimalsAreSafe(a: Axis, k: int)
    requires a.max >= a.min == k as real * PRECISION
    ensures IsSafe(a)
  {
    hide RoundTo, StepOf;
    if a.steps > 0 {
      RoundToMultiple(k);
      FirstCut(a);
      StepsUpwards(a);
      TimesMonotone(0.0, (a.steps - 1) as real, StepOf(a));
      RoundToMonotone(a.min, a.min + Offset(a.steps - 1, StepOf(a)));
    }
  }

  lemma StepsUpwards(a: Axis)
    requires a.steps > 0 && a.max >= a.min
    ensures StepOf(a) >= 0.0
  {}

  // ----- The automatic range -----

  lemma {:induction false} LargestAbove(xs: seq<real>, bound: real)
    requires bound >= -99.0
    ensures Largest(xs) > bound <==> exists i :: 0 <= i < |xs| && xs[i] > bound
  {
    if xs != [] {
      var n := |xs| - 1;
      LargestAbove(xs[..n], bound);
      if i :| 0 <= i < n && xs[i] > bound {
        assert xs[..n][i] > bound;
      }
    }
  }

  /** Its cuts: from 0 upwards, or from 0 down to nine tenths of a negative maximum. */
  lemma AutomaticCuts(max: real)
    ensures var a := Axis(0.0, max, 10);
      && CutAt(a, 0) == 0.0
      && CutAt(a, 9) == RoundTo(0.9 * max)
      && (CutAt(a, 9) < 0.0 <==> 1800.0 * max <= -1.0)
  {
    var a := Axis(0.0, max, 10);
    assert 9.0 * StepOf(a) == 0.9 * max;
    assert 0.0 / PRECISION == 0.0;
    RoundNegative(0.9 * max / PRECISION);
  }

  lemma RoundNegative(x: real)
    ensures Round(x) < 0 <==> x <= -0.5
  {}

  /** Some file reaches a score above -1/1800, or there are no files. */
  predicate ReachesUp(fileMaxima: seq<real>) {
    fileMaxima == [] || exists i :: 0 <= i < |fileMaxima| && 1800.0 * fileMaxima[i] > -1.0
  }

  /** The automatic range is safe exactly when the scores reach above -1/1800 in some file. */
  lemma AutomaticRangeIsSafeIff(scanMin: real, scanSteps: nat, fileMaxima: seq<real>)
    ensures IsSafe(Range(scanMin, -99.0, scanSteps, fileMaxima)) <==> ReachesUp(fileMaxima)
  {
    var max := Range(scanMin, -99.0, scanSteps, fileMaxima).max;
    AutomaticCuts(max);
    LargestAbove(fileMaxima, -1.0 / 1800.0);
  }

  function AutomaticAxes(maxima: seq<real>): seq<Axis> {
    seq(|maxima|, b requires 0 <= b < |maxima| => Axis(0.0, maxima[b], 10))
  }

  /** A whole scan with automatic ranges, over data within the maxima the ranges were made from:
      it counts correctly exactly when every BDT reaches above -1/1800, or some BDT stays at or
      below its lowest cut. */
  lemma AutomaticScanIsLosslessIff(maxima: seq<real>, points: GridIndex.Axes)
    requires IsGrid(AutomaticAxes(maxima), points)
    ensures ScanIsLosslessWithin(AutomaticAxes(maxima), points, maxima)
       <==> ((exists b :: 0 <= b < |maxima| && maxima[b] <= 0.0 && RoundTo(0.9 * maxima[b]) >= maxima[b])
             || forall b :: 0 <= b < |maxima| ==> 1800.0 * maxima[b] > -1.0)
  {
    hide CutAt, RoundTo;
    var axes := AutomaticAxes(maxima);
    forall b | 0 <= b < |maxima|
      ensures IsSafe(axes[b]) <==> 1800.0 * maxima[b] > -1.0
      ensures IsUnreached(axes[b], maxima[b]) <==> maxima[b] <= 0.0 && RoundTo(0.9 * maxima[b]) >= maxima[b]
    {
      AutomaticCuts(maxima[b]);
      AutomaticLow(maxima[b]);
    }
    ScanIsLosslessWithinIff(axes, points, maxima);
  }

  lemma AutomaticLow(max: real)
    ensures var a := Axis(0.0, max, 10);
      Low(a) >= max <==> max <= 0.0 && RoundTo(0.9 * max) >= max
  {
    hide RoundTo;
    AutomaticCuts(max);
    RoundToMultiple(0);
    if max >= 0.0 {
      RoundToMonotone(0.0, 0.9 * max);
    } else {
      RoundToMonotone(0.9 * max, 0.0);
    }
  }

  /** A file whose only event scores -0.0006: the last automatic cut is -0.001, which the event
      passes, but it is not in the list built at 0. */
  lemma NegativeMaximumLosesEvent(scanMin: real, scanSteps: nat)
    ensures var a, tree := Range(scanMin, -99.0, scanSteps, [-0.0006]), [Event(true, true, 1.0, [-0.0006])];
      && CutAt(a, 9) == -0.001
      && WeightIn(tree, Select(tree, [a.min]), [CutAt(a, 9)]) == 0.0
      && WeightAll(tree, 1, [CutAt(a, 9)]) == 1.0
  {
    assert Largest([]) == -99.0;
    assert Largest([-0.0006]) == -0.0006;
    AutomaticCuts(-0.0006);
    LoneEventIsLost([Event(true, true, 1.0, [-0.0006])], [0.0], [-0.001], 0);
  }
}
