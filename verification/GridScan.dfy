/** The grid scan of hive/src/bdt_sig.cxx: the argmax of `chisquare_grid_scan_sys_fixed` and
    the marginal projections of `make_project_plots`. */
module GridScan {
  import opened GridIndex

  type Metric = seq<real> -> real

  /** The metric at the g-th point of the scan. */
  function At(metric: Metric, axes: Axes, g: int): real
    requires NonEmptyAxes(axes)
  {
    DigitsInGrid(g, axes);
    metric(PointAt(Digits(g, axes), axes))
  }

  method ChisquareGridScan(axes: Axes, maxPts: nat, chi: Metric, significance: Metric)
    returns (bestPoint: int, bestChi: real, bestPt: seq<real>, chivec: seq<real>, sigvec: seq<real>)
    requires NonEmptyAxes(axes) && maxPts == TotalPoints(axes) < TWO32 / 2
    ensures |chivec| == |sigvec| == maxPts
    ensures forall g :: 0 <= g < maxPts ==> chivec[g] == At(chi, axes, g) && sigvec[g] == At(significance, axes, g)
    // No combination of cuts beats the one returned ...
    ensures forall idx :: InGrid(idx, axes) ==> chi(PointAt(idx, axes)) <= bestChi
    // ... which is the first to reach the best value, if any value is positive at all.
    ensures bestPoint == -1 <==> forall idx :: InGrid(idx, axes) ==> chi(PointAt(idx, axes)) <= 0.0
    ensures bestPoint == -1 ==> bestChi == 0.0
    ensures bestPoint != -1 ==> 0 <= bestPoint < maxPts && bestChi == chi(bestPt) > 0.0
    ensures forall g :: 0 <= g < bestPoint ==> chivec[g] < bestChi
    ensures InGrid(Digits(bestPoint, axes), axes) && bestPt == PointAt(Digits(bestPoint, axes), axes)
  {
    bestPoint, bestChi, chivec, sigvec := -1, 0.0, [], [];
    for i := 0 to maxPts
      invariant |chivec| == |sigvec| == i
      invariant forall g :: 0 <= g < i ==> chivec[g] == At(chi, axes, g) && sigvec[g] == At(significance, axes, g)
      invariant forall g :: 0 <= g < i ==> chivec[g] <= bestChi
      invariant bestPoint == -1 ==> bestChi == 0.0
      invariant bestPoint != -1 ==> 0 <= bestPoint < i && bestChi == chivec[bestPoint] > 0.0
      invariant forall g :: 0 <= g < bestPoint ==> chivec[g] < bestChi
    {
      var curPt := GrabPoint(i, axes);
      var currentChi := chi(curPt);
      chivec := chivec + [currentChi];
      sigvec := sigvec + [significance(curPt)];
      if currentChi > bestChi {
        bestChi := currentChi;
        bestPoint := i;
      }
    }
    bestPt := GrabPoint(bestPoint, axes);
    forall idx | InGrid(idx, axes)
      ensures chi(PointAt(idx, axes)) <= bestChi
    {
      DigitsEncode(idx, axes);
      assert chivec[Encode(idx, axes)] == At(chi, axes, Encode(idx, axes));
    }
    if bestPoint != -1 {
      DigitsInGrid(bestPoint, axes);
      assert chi(PointAt(Digits(bestPoint, axes), axes)) > 0.0;
    }
  }

  // ----- Projections -----

  /** Content of a histogram bin; `Empty` while its filled flag is unset. */
  datatype Bin = Empty | Filled(content: real)

  /** `if filled then min(content, value) else value` */
  function Update(bin: Bin, value: real): Bin {
    match bin
    case Empty => Filled(value)
    case Filled(c) => Filled(if value < c then value else c)
  }

  /** The least of the first n results whose point is selected. */
  function MinOver(n: nat, results: seq<real>, selected: int -> bool): Bin
    requires n <= |results|
  {
    if n == 0 then Empty
    else if selected(n - 1) then Update(MinOver(n - 1, results, selected), results[n - 1])
    else MinOver(n - 1, results, selected)
  }

  /** Points with index b on axis j. */
  function OnAxis(axes: Axes, j: nat, b: int): int -> bool
    requires NonEmptyAxes(axes) && j < |axes|
  {
    g => Digits(g, axes)[j] == b
  }

  function OnBoth(axes: Axes, j: nat, b: int, k: nat, c: int): int -> bool
    requires NonEmptyAxes(axes) && j < |axes| && k < |axes|
  {
    g => Digits(g, axes)[j] == b && Digits(g, axes)[k] == c
  }

  type Hist1D = seq<Bin>
  type Hist2D = seq<seq<Bin>>
  type Pairs = seq<(nat, nat)>

  ghost predicate Shape1D(axes: Axes, hists: seq<Hist1D>) {
    |hists| == |axes| && forall j :: 0 <= j < |axes| ==> |hists[j]| == |axes[j]|
  }

  ghost predicate ValidPairs(axes: Axes, pairs: Pairs) {
    forall p :: 0 <= p < |pairs| ==> pairs[p].0 < pairs[p].1 < |axes|
  }

  ghost predicate Shape2D(axes: Axes, pairs: Pairs, hists: seq<Hist2D>)
    requires ValidPairs(axes, pairs)
  {
    |hists| == |pairs| && forall p :: 0 <= p < |pairs| ==>
      |hists[p]| == |axes[pairs[p].0]| && forall b :: 0 <= b < |hists[p]| ==> |hists[p][b]| == |axes[pairs[p].1]|
  }

  /** The bins of axis j hold the minima over the first n points. */
  ghost predicate Projects1D(axes: Axes, results: seq<real>, n: nat, j: nat, hist: Hist1D)
    requires NonEmptyAxes(axes) && j < |axes| && n <= |results|
  {
    forall b :: 0 <= b < |hist| ==> hist[b] == MinOver(n, results, OnAxis(axes, j, b))
  }

  ghost predicate Projects2D(axes: Axes, results: seq<real>, n: nat, pair: (nat, nat), hist: Hist2D)
    requires NonEmptyAxes(axes) && pair.0 < |axes| && pair.1 < |axes| && n <= |results|
  {
    forall b, c :: 0 <= b < |hist| && 0 <= c < |hist[b]| ==>
      hist[b][c] == MinOver(n, results, OnBoth(axes, pair.0, b, pair.1, c))
  }

  /** One axis of the 1D update for scan point i. */
  method Fill1D(axes: Axes, results: seq<real>, i: nat, indices: seq<int>, j: nat, hist: Hist1D) returns (out: Hist1D)
    requires NonEmptyAxes(axes) && j < |axes| && i < |results| && indices == Digits(i, axes)
    requires |hist| == |axes[j]| && Projects1D(axes, results, i, j, hist)
    ensures |out| == |hist| && Projects1D(axes, results, i + 1, j, out)
  {
    DigitsInGrid(i, axes);
    var bin := indices[j];
    out := hist[bin := Update(hist[bin], results[i])];
  }

  method Fill2D(axes: Axes, results: seq<real>, i: nat, indices: seq<int>, pair: (nat, nat), hist: Hist2D)
    returns (out: Hist2D)
    requires NonEmptyAxes(axes) && pair.0 < |axes| && pair.1 < |axes| && i < |results| && indices == Digits(i, axes)
    requires |hist| == |axes[pair.0]| && forall b :: 0 <= b < |hist| ==> |hist[b]| == |axes[pair.1]|
    requires Projects2D(axes, results, i, pair, hist)
    ensures |out| == |hist| && forall b :: 0 <= b < |hist| ==> |out[b]| == |hist[b]|
    ensures Projects2D(axes, results, i + 1, pair, out)
  {
    DigitsInGrid(i, axes);
    var binX, binY := indices[pair.0], indices[pair.1];
    out := hist[binX := hist[binX][binY := Update(hist[binX][binY], results[i])]];
  }

  /** `Comb_2D`: every pair of axes, in the order of the double loop. */
  method AxisPairs(count: nat) returns (pairs: Pairs)
    ensures forall p :: p in pairs <==> p.0 < p.1 < count
  {
    pairs := [];
    for i := 0 to count
      invariant forall p :: p in pairs <==> p.0 < p.1 < count && p.0 < i
    {
      for j := i + 1 to count
        invariant forall p :: p in pairs <==> p.0 < p.1 < count && (p.0 < i || (p.0 == i && p.1 < j))
      {
        pairs := pairs + [(i, j)];
      }
    }
  }

  method MakeProjections(axes: Axes, results: seq<real>)
    returns (hist1D: seq<Hist1D>, pairs: Pairs, hist2D: seq<Hist2D>)
    requires NonEmptyAxes(axes) && |results| >= TotalPoints(axes)
    ensures forall p :: p in pairs <==> p.0 < p.1 < |axes|
    ensures ValidPairs(axes, pairs) && Shape1D(axes, hist1D) && Shape2D(axes, pairs, hist2D)
    ensures forall j :: 0 <= j < |axes| ==> Projects1D(axes, results, TotalPoints(axes), j, hist1D[j])
    ensures forall p :: 0 <= p < |pairs| ==> Projects2D(axes, results, TotalPoints(axes), pairs[p], hist2D[p])
    // Every 1D bin holds the least result of the grid points with its index on its axis.
    ensures TotalPoints(axes) <= TWO32 / 2 ==>
      forall j, b :: 0 <= j < |axes| && 0 <= b < |axes[j]| ==> IsMarginal(axes, results, j, b, hist1D[j][b])
  {
    pairs := AxisPairs(|axes|);
    PairsValid(axes, pairs);
    hist1D, hist2D := Empty1D(axes), Empty2D(axes, pairs);
    EmptyProjects(axes, results, pairs);
    hide Projects1D, Projects2D;
    for i := 0 to TotalPoints(axes)
      invariant Shape1D(axes, hist1D) && Shape2D(axes, pairs, hist2D)
      invariant forall j :: 0 <= j < |axes| ==> Projects1D(axes, results, i, j, hist1D[j])
      invariant forall p :: 0 <= p < |pairs| ==> Projects2D(axes, results, i, pairs[p], hist2D[p])
    {
      var indices := GetLocalIndices(i, axes);
      hist1D := FillAll1D(axes, results, i, indices, hist1D);
      hist2D := FillAll2D(axes, results, i, indices, pairs, hist2D);
    }
    if TotalPoints(axes) <= TWO32 / 2 {
      BinsAreMarginals(axes, results, hist1D);
    }
  }

  /** A filled bin with the least result among the grid points with index b on axis j. */
  ghost predicate IsMarginal(axes: Axes, results: seq<real>, j: nat, b: nat, bin: Bin)
    requires j < |axes|
  {
    && bin.Filled?
    && (forall idx :: InGrid(idx, axes) && idx[j] == b ==>
          0 <= Encode(idx, axes) < |results| && bin.content <= results[Encode(idx, axes)])
    && (exists idx :: InGrid(idx, axes) && idx[j] == b &&
          0 <= Encode(idx, axes) < |results| && results[Encode(idx, axes)] == bin.content)
  }

  lemma BinsAreMarginals(axes: Axes, results: seq<real>, hist1D: seq<Hist1D>)
    requires NonEmptyAxes(axes) && TotalPoints(axes) <= |results| && TotalPoints(axes) <= TWO32 / 2
    requires Shape1D(axes, hist1D)
    requires forall j :: 0 <= j < |axes| ==> Projects1D(axes, results, TotalPoints(axes), j, hist1D[j])
    ensures forall j, b :: 0 <= j < |axes| && 0 <= b < |axes[j]| ==> IsMarginal(axes, results, j, b, hist1D[j][b])
  {
    hide MinOver, TotalPoints, OnAxis, Encode;
    forall j, b | 0 <= j < |axes| && 0 <= b < |axes[j]|
      ensures IsMarginal(axes, results, j, b, hist1D[j][b])
    {
      Marginal1D(axes, results, j, b);
    }
  }

  lemma PairsValid(axes: Axes, pairs: Pairs)
    requires forall p :: p in pairs <==> p.0 < p.1 < |axes|
    ensures ValidPairs(axes, pairs)
  {
    forall p | 0 <= p < |pairs|
      ensures pairs[p].0 < pairs[p].1 < |axes|
    {
      assert pairs[p] in pairs;
    }
  }

  function Empty1D(axes: Axes): seq<Hist1D> {
    seq(|axes|, j requires 0 <= j < |axes| => seq(|axes[j]|, _ => Empty))
  }

  function EmptyTable(rows: nat, columns: nat): Hist2D {
    seq(rows, _ => seq(columns, _ => Empty))
  }

  function Empty2D(axes: Axes, pairs: Pairs): seq<Hist2D>
    requires ValidPairs(axes, pairs)
  {
    seq(|pairs|, p requires 0 <= p < |pairs| => EmptyTable(|axes[pairs[p].0]|, |axes[pairs[p].1]|))
  }

  lemma EmptyProjects(axes: Axes, results: seq<real>, pairs: Pairs)
    requires NonEmptyAxes(axes) && ValidPairs(axes, pairs)
    ensures Shape1D(axes, Empty1D(axes)) && Shape2D(axes, pairs, Empty2D(axes, pairs))
    ensures forall j :: 0 <= j < |axes| ==> Projects1D(axes, results, 0, j, Empty1D(axes)[j])
    ensures forall p :: 0 <= p < |pairs| ==> Projects2D(axes, results, 0, pairs[p], Empty2D(axes, pairs)[p])
  {}

  method FillAll1D(axes: Axes, results: seq<real>, i: nat, indices: seq<int>, hists: seq<Hist1D>)
    returns (out: seq<Hist1D>)
    requires NonEmptyAxes(axes) && i < |results| && indices == Digits(i, axes) && Shape1D(axes, hists)
    requires forall j :: 0 <= j < |axes| ==> Projects1D(axes, results, i, j, hists[j])
    ensures Shape1D(axes, out)
    ensures forall j :: 0 <= j < |axes| ==> Projects1D(axes, results, i + 1, j, out[j])
  {
    hide Projects1D;
    out := hists;
    for j := 0 to |axes|
      invariant Shape1D(axes, out)
      invariant forall k :: 0 <= k < |axes| ==> Projects1D(axes, results, if k < j then i + 1 else i, k, out[k])
    {
      var h := Fill1D(axes, results, i, indices, j, out[j]);
      out := out[j := h];
    }
  }

  method FillAll2D(axes: Axes, results: seq<real>, i: nat, indices: seq<int>, pairs: Pairs, hists: seq<Hist2D>)
    returns (out: seq<Hist2D>)
    requires NonEmptyAxes(axes) && ValidPairs(axes, pairs) && i < |results| && indices == Digits(i, axes)
    requires Shape2D(axes, pairs, hists)
    requires forall p :: 0 <= p < |pairs| ==> Projects2D(axes, results, i, pairs[p], hists[p])
    ensures Shape2D(axes, pairs, out)
    ensures forall p :: 0 <= p < |pairs| ==> Projects2D(axes, results, i + 1, pairs[p], out[p])
  {
    hide Projects2D;
    out := hists;
    for p := 0 to |pairs|
      invariant Shape2D(axes, pairs, out)
      invariant forall k :: 0 <= k < |pairs| ==> Projects2D(axes, results, if k < p then i + 1 else i, pairs[k], out[k])
    {
      var h := Fill2D(axes, results, i, indices, pairs[p], out[p]);
      out := out[p := h];
    }
  }

  // ----- What a bin means -----

  /** Bin is the least selected result, and is filled exactly when something is selected. */
  ghost predicate IsLeast(bin: Bin, n: nat, results: seq<real>, selected: int -> bool)
    requires n <= |results|
  {
    && (bin == Empty <==> forall g :: 0 <= g < n ==> !selected(g))
    && (bin.Filled? ==>
          && (forall g :: 0 <= g < n && selected(g) ==> bin.content <= results[g])
          && exists g :: 0 <= g < n && selected(g) && results[g] == bin.content)
  }

  lemma {:induction false} MinOverIsLeast(n: nat, results: seq<real>, selected: int -> bool)
    requires n <= |results|
    ensures IsLeast(MinOver(n, results, selected), n, results, selected)
  {
    if n > 0 {
      MinOverIsLeast(n - 1, results, selected);
      if selected(n - 1) {
        assert results[n - 1] <= results[n - 1];
      }
    }
  }

  /** A tuple with index b on axis j and c on axis k. */
  function TupleWith(axes: Axes, j: nat, b: int, k: nat, c: int): seq<int> {
    seq(|axes|, i => if i == j then b else if i == k then c else 0)
  }

  /** Each 1D bin is filled with the minimum of the metric over all grid points with that
      index on that axis. */
  lemma Marginal1D(axes: Axes, results: seq<real>, j: nat, b: nat)
    requires NonEmptyAxes(axes) && TotalPoints(axes) <= |results| && TotalPoints(axes) <= TWO32 / 2
    requires j < |axes| && b < |axes[j]|
    ensures IsMarginal(axes, results, j, b, MinOver(TotalPoints(axes), results, OnAxis(axes, j, b)))
  {
    var n, sel := TotalPoints(axes), OnAxis(axes, j, b);
    MinOverIsLeast(n, results, sel);
    var bin := MinOver(n, results, sel);
    forall idx | InGrid(idx, axes) && idx[j] == b
      ensures 0 <= Encode(idx, axes) < n && sel(Encode(idx, axes))
    {
      DigitsEncode(idx, axes);
    }
    var some := TupleWith(axes, j, b, j, b);
    assert InGrid(some, axes) && some[j] == b;
    assert sel(Encode(some, axes));
    var g :| 0 <= g < n && sel(g) && results[g] == bin.content;
    DigitsInGrid(g, axes);
    EncodeDigits(g, axes);
    var idx := Digits(g, axes);
    assert InGrid(idx, axes) && idx[j] == b && results[Encode(idx, axes)] == bin.content;
  }

  /** Every 2D bin is filled as well, with the minimum over the points it selects. */
  lemma Marginal2D(axes: Axes, results: seq<real>, j: nat, b: nat, k: nat, c: nat)
    requires NonEmptyAxes(axes) && TotalPoints(axes) <= |results| && TotalPoints(axes) <= TWO32 / 2
    requires j < |axes| && b < |axes[j]| && k < |axes| && c < |axes[k]| && j != k
    ensures var bin := MinOver(TotalPoints(axes), results, OnBoth(axes, j, b, k, c));
      bin.Filled? && IsLeast(bin, TotalPoints(axes), results, OnBoth(axes, j, b, k, c))
  {
    var n, sel := TotalPoints(axes), OnBoth(axes, j, b, k, c);
    MinOverIsLeast(n, results, sel);
    var some := TupleWith(axes, j, b, k, c);
    assert InGrid(some, axes) && some[j] == b && some[k] == c;
    DigitsEncode(some, axes);
    assert sel(Encode(some, axes));
  }

  lemma CellAbove(axes: Axes, results: seq<real>, j: nat, b: int, k: nat, c: int)
    requires NonEmptyAxes(axes) && TotalPoints(axes) <= |results| && j < |axes| && k < |axes|
    ensures var n := TotalPoints(axes);
      var bin, cell := MinOver(n, results, OnAxis(axes, j, b)), MinOver(n, results, OnBoth(axes, j, b, k, c));
      cell.Filled? ==> bin.Filled? && bin.content <= cell.content
  {
    var n, sel, both := TotalPoints(axes), OnAxis(axes, j, b), OnBoth(axes, j, b, k, c);
    MinOverIsLeast(n, results, sel);
    MinOverIsLeast(n, results, both);
    var cell := MinOver(n, results, both);
    if cell.Filled? {
      var g :| 0 <= g < n && both(g) && results[g] == cell.content;
      assert sel(g);
    }
  }

  /** Each 1D bin is the minimum of its row in any 2D projection that has its axis first ... */
  lemma RowMinimum(axes: Axes, results: seq<real>, j: nat, b: nat, k: nat)
    requires NonEmptyAxes(axes) && TotalPoints(axes) <= |results| && TotalPoints(axes) <= TWO32 / 2
    requires j < |axes| && b < |axes[j]| && k < |axes| && j != k
    ensures var n, bin := TotalPoints(axes), MinOver(TotalPoints(axes), results, OnAxis(axes, j, b));
      && (forall c :: 0 <= c < |axes[k]| ==>
            var cell := MinOver(n, results, OnBoth(axes, j, b, k, c));
            cell.Filled? && bin.Filled? && bin.content <= cell.content)
      && (exists c :: 0 <= c < |axes[k]| && MinOver(n, results, OnBoth(axes, j, b, k, c)) == bin)
  {
    hide MinOver, TotalPoints, Digits, Encode;
    var n := TotalPoints(axes);
    var bin := MinOver(n, results, OnAxis(axes, j, b));
    forall c | 0 <= c < |axes[k]|
      ensures var cell := MinOver(n, results, OnBoth(axes, j, b, k, c));
        cell.Filled? && bin.Filled? && bin.content <= cell.content
    {
      Marginal2D(axes, results, j, b, k, c);
      CellAbove(axes, results, j, b, k, c);
    }
    var c := CellAttains(axes, results, j, b, k);
  }

  lemma CellAttains(axes: Axes, results: seq<real>, j: nat, b: nat, k: nat) returns (c: int)
    requires NonEmptyAxes(axes) && TotalPoints(axes) <= |results| && TotalPoints(axes) <= TWO32 / 2
    requires j < |axes| && b < |axes[j]| && k < |axes| && j != k
    ensures 0 <= c < |axes[k]|
    ensures MinOver(TotalPoints(axes), results, OnBoth(axes, j, b, k, c))
         == MinOver(TotalPoints(axes), results, OnAxis(axes, j, b))
  {
    hide MinOver, TotalPoints, Digits, Encode;
    var n, sel := TotalPoints(axes), OnAxis(axes, j, b);
    var bin := MinOver(n, results, sel);
    Marginal1D(axes, results, j, b);
    MinOverIsLeast(n, results, sel);
    var g :| 0 <= g < n && sel(g) && results[g] == bin.content;
    DigitsInGrid(g, axes);
    c := Digits(g, axes)[k];
    Marginal2D(axes, results, j, b, k, c);
    CellAbove(axes, results, j, b, k, c);
    assert OnBoth(axes, j, b, k, c)(g);
  }

  /** ... and of its column in any that has it second. */
  lemma ColumnMinimum(axes: Axes, results: seq<real>, j: nat, k: nat, c: nat)
    requires NonEmptyAxes(axes) && TotalPoints(axes) <= |results| && TotalPoints(axes) <= TWO32 / 2
    requires j < |axes| && k < |axes| && c < |axes[k]| && j != k
    ensures var n, bin := TotalPoints(axes), MinOver(TotalPoints(axes), results, OnAxis(axes, k, c));
      && (forall b :: 0 <= b < |axes[j]| ==>
            var cell := MinOver(n, results, OnBoth(axes, j, b, k, c));
            cell.Filled? && bin.Filled? && bin.content <= cell.content)
      && (exists b :: 0 <= b < |axes[j]| && MinOver(n, results, OnBoth(axes, j, b, k, c)) == bin)
  {
    var n := TotalPoints(axes);
    RowMinimum(axes, results, k, c, j);
    forall b | 0 <= b < |axes[j]|
      ensures MinOver(n, results, OnBoth(axes, k, c, j, b)) == MinOver(n, results, OnBoth(axes, j, b, k, c))
    {
      MinOverExt(n, results, OnBoth(axes, k, c, j, b), OnBoth(axes, j, b, k, c));
    }
    var b :| 0 <= b < |axes[j]|
       && MinOver(n, results, OnBoth(axes, k, c, j, b)) == MinOver(n, results, OnAxis(axes, k, c));
    assert MinOver(n, results, OnBoth(axes, j, b, k, c)) == MinOver(n, results, OnAxis(axes, k, c));
  }

  lemma {:induction false} MinOverExt(n: nat, results: seq<real>, p: int -> bool, q: int -> bool)
    requires n <= |results| && forall g :: p(g) == q(g)
    ensures MinOver(n, results, p) == MinOver(n, results, q)
  {
    if n > 0 {
      MinOverExt(n - 1, results, p, q);
    }
  }
}
