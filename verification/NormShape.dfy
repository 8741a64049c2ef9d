/** `splitNormShapeCopy` of hive/src/bdt_file.cxx: a matrix is split into a shape part, a
    mixed part and a normalisation part with respect to a weight vector. */
module NormShape {
  import opened Sums
  import opened Matrices

  datatype Part = ShapePart | MixedPart | NormPart

  /** The weights after the in-place normalisation of `fullvec`. */
  function Normalised(n: nat, v: Vector): Vector
    requires Sum(n, v) != 0.0
  {
    var total := Sum(n, v);
    i => v(i) / total
  }

  /** The three parts, from the first k terms of every inner sum of the source. */
  function PartialEntry(part: Part, F: Matrix, n: nat, w: Vector, k: nat, i: int, j: int): real {
    var rows, cols := Sum(k, l => F(i, l)), Sum(k, l => F(l, j));
    var total := Sum(k, l => RowSum(F, n, l));
    match part
    case ShapePart => F(i, j) - w(j) * rows - w(i) * cols + w(i) * w(j) * total
    case MixedPart => w(j) * rows + w(i) * cols - 2.0 * (w(i) * w(j) * total)
    case NormPart => w(i) * w(j) * total
  }

  function Split(part: Part, F: Matrix, n: nat, w: Vector): Matrix {
    (i, j) => PartialEntry(part, F, n, w, n, i, j)
  }

  // ----- The loops -----

  ghost predicate HoldsVector(v: array<real>, f: Vector)
    reads v
  {
    forall i :: 0 <= i < v.Length ==> v[i] == f(i)
  }

  method Accumulate(v: array<real>, ghost f: Vector) returns (total: real)
    requires HoldsVector(v, f)
    ensures total == Sum(v.Length, f)
  {
    total := 0.0;
    for i := 0 to v.Length
      invariant total == Sum(i, f)
    {
      total := total + v[i];
    }
  }

  lemma Terms(a: real, b: real, nt: real, x: real, sum: real)
    requires nt == 1.0
    ensures a / nt * x == a * x
    ensures -a / nt * x == -(a * x)
    ensures a * b / (nt * nt) * x == a * b * x
    ensures -2.0 * a * b / (nt * nt) * x == -2.0 * (a * b * x)
    ensures a * b * (sum + x) == a * b * sum + a * b * x
    ensures a * (sum + x) == a * sum + a * x
  {
    assert nt * nt == 1.0;
    assert -2.0 * a * b * x == -2.0 * (a * b * x);
  }

  /** What index k adds through its row and column, and through its row total. */
  function Margin(wi: real, wj: real, row: real, col: real): real { wj * row + wi * col }
  function Corner(wi: real, wj: real, total: real): real { wi * wj * total }

  /** The row and column terms of one k. */
  method AddMargins(wi: real, wj: real, nt: real, row: real, col: real, shape: real, mixed: real)
    returns (shape': real, mixed': real)
    requires nt == 1.0
    ensures shape' == shape - Margin(wi, wj, row, col)
    ensures mixed' == mixed + Margin(wi, wj, row, col)
  {
    Terms(wj, 1.0, nt, row, 0.0);
    Terms(wi, 1.0, nt, col, 0.0);
    shape' := shape + (-wj / nt * row - wi / nt * col);
    mixed' := mixed + (wj / nt * row + wi / nt * col);
  }

  /** The l loop: row k of the matrix enters all three parts. */
  method AddTotals(min: array2<real>, wi: real, wj: real, nt: real, k: nat, shape: real, mixed: real, norm: real,
                   ghost F: Matrix)
    returns (shape': real, mixed': real, norm': real)
    requires min.Length0 == min.Length1 && k < min.Length0
    requires Holds(min, F) && nt == 1.0
    ensures shape' == shape + Corner(wi, wj, RowSum(F, min.Length0, k))
    ensures mixed' == mixed - 2.0 * Corner(wi, wj, RowSum(F, min.Length0, k))
    ensures norm' == norm + Corner(wi, wj, RowSum(F, min.Length0, k))
  {
    shape', mixed', norm' := shape, mixed, norm;
    for l := 0 to min.Length0
      invariant shape' == shape + wi * wj * RowSum(F, l, k)
      invariant mixed' == mixed - 2.0 * (wi * wj * RowSum(F, l, k))
      invariant norm' == norm + wi * wj * RowSum(F, l, k)
    {
      Terms(wi, wj, nt, min[k, l], RowSum(F, l, k));
      shape' := shape' + wi * wj / (nt * nt) * min[k, l];
      mixed' := mixed' + -2.0 * wi * wj / (nt * nt) * min[k, l];
      norm' := norm' + wi * wj / (nt * nt) * min[k, l];
    }
  }

  lemma NextTerm(F: Matrix, n: nat, w: Vector, k: nat, i: int, j: int, wi: real, wj: real, row: real, col: real)
    requires wi == w(i) && wj == w(j) && row == F(i, k) && col == F(k, j)
    ensures var margin, corner := Margin(wi, wj, row, col), Corner(wi, wj, RowSum(F, n, k));
      && PartialEntry(ShapePart, F, n, w, k + 1, i, j) == PartialEntry(ShapePart, F, n, w, k, i, j) - margin + corner
      && PartialEntry(MixedPart, F, n, w, k + 1, i, j) == PartialEntry(MixedPart, F, n, w, k, i, j)
         + margin - 2.0 * corner
      && PartialEntry(NormPart, F, n, w, k + 1, i, j) == PartialEntry(NormPart, F, n, w, k, i, j) + corner
  {
    hide RowSum;
    Terms(wj, 1.0, 1.0, row, Sum(k, l => F(i, l)));
    Terms(wi, 1.0, 1.0, col, Sum(k, l => F(l, j)));
    Terms(wi, wj, 1.0, RowSum(F, n, k), Sum(k, l => RowSum(F, n, l)));
  }

  /** The body of the double loop: the k loop for one entry. */
  method SplitEntry(min: array2<real>, fullvec: array<real>, nt: real, i: nat, j: nat, ghost F: Matrix, ghost w: Vector)
    returns (shape: real, mixed: real, norm: real)
    requires min.Length0 == min.Length1 == fullvec.Length && i < fullvec.Length && j < fullvec.Length
    requires Holds(min, F) && HoldsVector(fullvec, w) && nt == 1.0
    ensures shape == PartialEntry(ShapePart, F, fullvec.Length, w, fullvec.Length, i, j)
    ensures mixed == PartialEntry(MixedPart, F, fullvec.Length, w, fullvec.Length, i, j)
    ensures norm == PartialEntry(NormPart, F, fullvec.Length, w, fullvec.Length, i, j)
  {
    hide PartialEntry, RowSum, Margin, Corner;
    var n := fullvec.Length;
    shape, mixed, norm := min[i, j], 0.0, 0.0;
    PartialStart(F, n, w, i, j);
    var wi, wj := fullvec[i], fullvec[j];
    for k := 0 to n
      invariant shape == PartialEntry(ShapePart, F, n, w, k, i, j)
      invariant mixed == PartialEntry(MixedPart, F, n, w, k, i, j)
      invariant norm == PartialEntry(NormPart, F, n, w, k, i, j)
    {
      var row, col := min[i, k], min[k, j];
      NextTerm(F, n, w, k, i, j, wi, wj, row, col);
      shape, mixed := AddMargins(wi, wj, nt, row, col, shape, mixed);
      shape, mixed, norm := AddTotals(min, wi, wj, nt, k, shape, mixed, norm, F);
    }
  }

  lemma PartialStart(F: Matrix, n: nat, w: Vector, i: int, j: int)
    ensures PartialEntry(ShapePart, F, n, w, 0, i, j) == F(i, j)
    ensures PartialEntry(MixedPart, F, n, w, 0, i, j) == PartialEntry(NormPart, F, n, w, 0, i, j) == 0.0
  {}

  lemma NormalisedSum(n: nat, v: Vector)
    requires Sum(n, v) != 0.0
    ensures Sum(n, Normalised(n, v)) == 1.0
  {
    var total := Sum(n, v);
    SumScale(n, 1.0 / total, v);
    SumExt(n, Normalised(n, v), i => 1.0 / total * v(i));
  }

  /** The normalisation of `fullvec`; its new sum is returned too. */
  method NormaliseInPlace(fullvec: array<real>, ghost v: Vector) returns (nt: real)
    requires HoldsVector(fullvec, v) && Sum(fullvec.Length, v) != 0.0
    modifies fullvec
    ensures HoldsVector(fullvec, Normalised(fullvec.Length, v)) && nt == 1.0
  {
    nt := Accumulate(fullvec, v);
    ghost var w := Normalised(fullvec.Length, v);
    for i := 0 to fullvec.Length
      invariant forall k :: 0 <= k < fullvec.Length ==> fullvec[k] == if k < i then w(k) else v(k)
    {
      fullvec[i] := fullvec[i] / nt;
    }
    nt := Accumulate(fullvec, w);
    NormalisedSum(fullvec.Length, v);
  }

  lemma SplitIsPartial(F: Matrix, n: nat, w: Vector, i: int, j: int)
    ensures forall part :: Split(part, F, n, w)(i, j) == PartialEntry(part, F, n, w, n, i, j)
  {}

  /** The j loop: row i of the three parts. */
  method SplitRow(min: array2<real>, fullvec: array<real>, nt: real, i: nat,
                  shape: array2<real>, mixed: array2<real>, norm: array2<real>, ghost F: Matrix, ghost w: Vector)
    requires min.Length0 == min.Length1 == fullvec.Length && i < fullvec.Length
    requires shape.Length0 == shape.Length1 == fullvec.Length
    requires mixed.Length0 == mixed.Length1 == fullvec.Length
    requires norm.Length0 == norm.Length1 == fullvec.Length
    requires min != shape && min != mixed && min != norm && shape != mixed && shape != norm && mixed != norm
    requires Holds(min, F) && HoldsVector(fullvec, w) && nt == 1.0
    requires FilledTo(shape, Split(ShapePart, F, fullvec.Length, w), i, 0)
    requires FilledTo(mixed, Split(MixedPart, F, fullvec.Length, w), i, 0)
    requires FilledTo(norm, Split(NormPart, F, fullvec.Length, w), i, 0)
    modifies shape, mixed, norm
    ensures FilledTo(shape, Split(ShapePart, F, fullvec.Length, w), i + 1, 0)
    ensures FilledTo(mixed, Split(MixedPart, F, fullvec.Length, w), i + 1, 0)
    ensures FilledTo(norm, Split(NormPart, F, fullvec.Length, w), i + 1, 0)
  {
    hide Split, PartialEntry;
    var n := fullvec.Length;
    for j := 0 to n
      invariant Holds(min, F) && HoldsVector(fullvec, w)
      invariant FilledTo(shape, Split(ShapePart, F, n, w), i, j)
      invariant FilledTo(mixed, Split(MixedPart, F, n, w), i, j)
      invariant FilledTo(norm, Split(NormPart, F, n, w), i, j)
    {
      var s, m, t := SplitEntry(min, fullvec, nt, i, j, F, w);
      SplitIsPartial(F, n, w, i, j);
      shape[i, j], mixed[i, j], norm[i, j] := s, m, t;
    }
  }

  /** The double loop over the entries. */
  method FillParts(min: array2<real>, fullvec: array<real>, nt: real, ghost F: Matrix, ghost w: Vector)
    returns (shape: array2<real>, mixed: array2<real>, norm: array2<real>)
    requires min.Length0 == min.Length1 == fullvec.Length
    requires Holds(min, F) && HoldsVector(fullvec, w) && nt == 1.0
    ensures fresh(shape) && fresh(mixed) && fresh(norm)
    ensures shape.Length0 == shape.Length1 == fullvec.Length
    ensures mixed.Length0 == mixed.Length1 == fullvec.Length
    ensures norm.Length0 == norm.Length1 == fullvec.Length
    ensures Holds(shape, Split(ShapePart, F, fullvec.Length, w))
    ensures Holds(mixed, Split(MixedPart, F, fullvec.Length, w))
    ensures Holds(norm, Split(NormPart, F, fullvec.Length, w))
  {
    var n := fullvec.Length;
    hide Split;
    shape := new real[n, n];
    mixed := new real[n, n];
    norm := new real[n, n];
    for i := 0 to n
      invariant HoldsVector(fullvec, w) && Holds(min, F)
      invariant FilledTo(shape, Split(ShapePart, F, n, w), i, 0)
      invariant FilledTo(mixed, Split(MixedPart, F, n, w), i, 0)
      invariant FilledTo(norm, Split(NormPart, F, n, w), i, 0)
    {
      SplitRow(min, fullvec, nt, i, shape, mixed, norm, F, w);
    }
  }

  method SplitNormShape(min: array2<real>, fullvec: array<real>, ghost F: Matrix, ghost v: Vector)
    returns (shape: array2<real>, mixed: array2<real>, norm: array2<real>)
    requires min.Length0 == min.Length1 == fullvec.Length
    requires Holds(min, F) && HoldsVector(fullvec, v) && Sum(fullvec.Length, v) != 0.0
    modifies fullvec
    ensures fresh(shape) && fresh(mixed) && fresh(norm)
    ensures shape.Length0 == shape.Length1 == fullvec.Length
    ensures mixed.Length0 == mixed.Length1 == fullvec.Length
    ensures norm.Length0 == norm.Length1 == fullvec.Length
    ensures HoldsVector(fullvec, Normalised(fullvec.Length, v))
    ensures Holds(shape, Split(ShapePart, F, fullvec.Length, Normalised(fullvec.Length, v)))
    ensures Holds(mixed, Split(MixedPart, F, fullvec.Length, Normalised(fullvec.Length, v)))
    ensures Holds(norm, Split(NormPart, F, fullvec.Length, Normalised(fullvec.Length, v)))
    // In terms of the vector as it was given, with the sum of its entries multiplied in.
    ensures forall i :: 0 <= i < fullvec.Length ==> Prod(fullvec[i], Sum(fullvec.Length, v)) == v(i)
    ensures forall i, j :: 0 <= i < fullvec.Length && 0 <= j < fullvec.Length ==>
      var n, s := fullvec.Length, Sum(fullvec.Length, v);
      var margins := Prod(v(j), RowSum(F, n, i)) + Prod(v(i), ColSum(F, n, j));
      var corner := Prod(Prod(v(i), v(j)), Total(F, n));
      && Prod(shape[i, j], Prod(s, s)) == Prod(F(i, j), Prod(s, s)) - Prod(margins, s) + corner
      && Prod(mixed[i, j], Prod(s, s)) == Prod(margins, s) - 2.0 * corner
      && Prod(norm[i, j], Prod(s, s)) == corner
  {
    hide Split, Normalised, Sum, RowSum, ColSum, Total, Prod;
    var nt := NormaliseInPlace(fullvec, v);
    shape, mixed, norm := FillParts(min, fullvec, nt, F, Normalised(fullvec.Length, v));
    forall i, j {
      PartsInVector(F, fullvec.Length, v, i, j);
    }
  }

  /** The three parts with the sum of the vector multiplied in. */
  lemma ScaleOut(f: real, wi: real, wj: real, row: real, col: real, total: real, s: real)
    ensures var margins := Prod(Prod(wj, s), row) + Prod(Prod(wi, s), col);
      var corner := Prod(Prod(Prod(wi, s), Prod(wj, s)), total);
      var m, c := Margin(wi, wj, row, col), Corner(wi, wj, total);
      && Prod(f - m + c, Prod(s, s)) == Prod(f, Prod(s, s)) - Prod(margins, s) + corner
      && Prod(m - 2.0 * c, Prod(s, s)) == Prod(margins, s) - 2.0 * corner
      && Prod(c, Prod(s, s)) == corner
  {}

  lemma NormalisedTimesSum(n: nat, v: Vector, i: int)
    requires Sum(n, v) != 0.0
    ensures Prod(Normalised(n, v)(i), Sum(n, v)) == v(i)
  {}

  lemma PartsByMargins(F: Matrix, n: nat, w: Vector, i: int, j: int)
    ensures var m := Margin(w(i), w(j), RowSum(F, n, i), ColSum(F, n, j));
      var c := Corner(w(i), w(j), Total(F, n));
      && Split(ShapePart, F, n, w)(i, j) == F(i, j) - m + c
      && Split(MixedPart, F, n, w)(i, j) == m - 2.0 * c
      && Split(NormPart, F, n, w)(i, j) == c
  {
    SplitEntryIs(ShapePart, F, n, w, i, j);
    SplitEntryIs(MixedPart, F, n, w, i, j);
    SplitEntryIs(NormPart, F, n, w, i, j);
    hide Split;
  }

  lemma PartsInVector(F: Matrix, n: nat, v: Vector, i: int, j: int)
    requires Sum(n, v) != 0.0
    ensures var w, s := Normalised(n, v), Sum(n, v);
      var margins := Prod(v(j), RowSum(F, n, i)) + Prod(v(i), ColSum(F, n, j));
      var corner := Prod(Prod(v(i), v(j)), Total(F, n));
      && Prod(w(i), s) == v(i)
      && Prod(Split(ShapePart, F, n, w)(i, j), Prod(s, s)) == Prod(F(i, j), Prod(s, s)) - Prod(margins, s) + corner
      && Prod(Split(MixedPart, F, n, w)(i, j), Prod(s, s)) == Prod(margins, s) - 2.0 * corner
      && Prod(Split(NormPart, F, n, w)(i, j), Prod(s, s)) == corner
  {
    hide *;
    var w, s := Normalised(n, v), Sum(n, v);
    NormalisedTimesSum(n, v, i);
    NormalisedTimesSum(n, v, j);
    PartsByMargins(F, n, w, i, j);
    ScaleOut(F(i, j), w(i), w(j), RowSum(F, n, i), ColSum(F, n, j), Total(F, n), s);
  }

  /** The entries before (i, j) in row order are those of F. */
  ghost predicate FilledTo(m: array2<real>, F: Matrix, i: int, j: int)
    reads m
  {
    forall k, l :: 0 <= k < m.Length0 && 0 <= l < m.Length1 && (k < i || (k == i && l < j)) ==> m[k, l] == F(k, l)
  }

  // ----- What the split means -----

  /** Every part is a F_ij + b (w_j R_i + w_i C_j) + c w_i w_j T, with R, C and T the row sums,
      column sums and total of F. */
  function Coefficients(part: Part): (real, real, real) {
    match part
    case ShapePart => (1.0, -1.0, 1.0)
    case MixedPart => (0.0, 1.0, -2.0)
    case NormPart => (0.0, 0.0, 1.0)
  }

  lemma SplitEntryIs(part: Part, F: Matrix, n: nat, w: Vector, i: int, j: int)
    ensures var (a, b, c) := Coefficients(part);
      Split(part, F, n, w)(i, j)
      == a * F(i, j) + b * (w(j) * RowSum(F, n, i) + w(i) * ColSum(F, n, j)) + c * (w(i) * w(j) * Total(F, n))
  {}

  lemma Distribute(a: real, b: real, c: real, f: real, wi: real, wj: real, r: real, col: real, t: real)
    ensures a * f + b * (wj * r + wi * col) + c * (wi * wj * t)
         == Prod(a, f) + Prod(Prod(b, r), wj) + Prod(Prod(b, wi), col) + Prod(Prod(Prod(c, wi), t), wj)
  {}

  lemma Collect(a: real, b: real, c: real, wi: real, r: real, t: real)
    ensures Prod(a, r) + Prod(Prod(b, r), 1.0) + Prod(Prod(b, wi), t) + Prod(Prod(Prod(c, wi), t), 1.0)
         == (a + b) * r + (b + c) * (wi * t)
  {}

  lemma WeightedRowSum(part: Part, F: Matrix, n: nat, w: Vector, i: int, a: real, b: real, c: real)
    requires Sum(n, w) == 1.0 && Coefficients(part) == (a, b, c)
    ensures RowSum(Split(part, F, n, w), n, i) == (a + b) * RowSum(F, n, i) + (b + c) * (w(i) * Total(F, n))
  {
    hide Split, Coefficients, RowSum, Prod;
    var G, r, t := Split(part, F, n, w), RowSum(F, n, i), Total(F, n);
    var cols: Vector := j => ColSum(F, n, j);
    forall j | 0 <= j < n
      ensures G(i, j) == Prod(a, F(i, j)) + Prod(Prod(b, r), w(j)) + Prod(Prod(b, w(i)), cols(j))
                         + Prod(Prod(Prod(c, w(i)), t), w(j))
    {
      SplitEntryIs(part, F, n, w, i, j);
      Distribute(a, b, c, F(i, j), w(i), w(j), r, ColSum(F, n, j), t);
    }
    SumRow(G, F, n, i, a, Prod(b, r), w, Prod(b, w(i)), cols, Prod(Prod(c, w(i)), t));
    TotalByColumns(F, n);
    Collect(a, b, c, w(i), r, t);
  }

  lemma SumRow(G: Matrix, F: Matrix, n: nat, i: int, a: real, b: real, w: Vector, c: real, cols: Vector, d: real)
    requires forall j :: 0 <= j < n ==> G(i, j) == Prod(a, F(i, j)) + Prod(b, w(j)) + Prod(c, cols(j)) + Prod(d, w(j))
    ensures RowSum(G, n, i)
         == Prod(a, RowSum(F, n, i)) + Prod(b, Sum(n, w)) + Prod(c, Sum(n, cols)) + Prod(d, Sum(n, w))
  {
    SumLinear(n, a, j => F(i, j), b, w, c, cols, d, w, j => G(i, j));
  }

  lemma RowSumOfPart(part: Part, F: Matrix, n: nat, w: Vector, i: int)
    requires Sum(n, w) == 1.0
    ensures RowSum(Split(part, F, n, w), n, i) == match part
      case ShapePart => 0.0
      case MixedPart => RowSum(F, n, i) - w(i) * Total(F, n)
      case NormPart => w(i) * Total(F, n)
  {
    hide Split, RowSum, Total;
    match part
    case ShapePart => WeightedRowSum(part, F, n, w, i, 1.0, -1.0, 1.0);
    case MixedPart => WeightedRowSum(part, F, n, w, i, 0.0, 1.0, -2.0);
    case NormPart => WeightedRowSum(part, F, n, w, i, 0.0, 0.0, 1.0);
  }

  function Transpose(F: Matrix): Matrix {
    (i, j) => F(j, i)
  }

  lemma TransposeSums(F: Matrix, n: nat, i: int)
    ensures RowSum(Transpose(F), n, i) == ColSum(F, n, i)
    ensures ColSum(Transpose(F), n, i) == RowSum(F, n, i)
    ensures Total(Transpose(F), n) == Total(F, n)
  {
    var G := Transpose(F);
    SumExt(n, j => G(i, j), k => F(k, i));
    SumExt(n, k => G(k, i), j => F(i, j));
    forall k | 0 <= k < n
      ensures RowSum(G, n, k) == ColSum(F, n, k)
    {
      SumExt(n, j => G(k, j), l => F(l, k));
    }
    SumExt(n, k => RowSum(G, n, k), j => ColSum(F, n, j));
    TotalByColumns(F, n);
  }

  lemma ColSumOfPart(part: Part, F: Matrix, n: nat, w: Vector, j: int)
    requires Sum(n, w) == 1.0
    ensures ColSum(Split(part, F, n, w), n, j) == match part
      case ShapePart => 0.0
      case MixedPart => ColSum(F, n, j) - w(j) * Total(F, n)
      case NormPart => w(j) * Total(F, n)
  {
    var G, H := Split(part, F, n, w), Split(part, Transpose(F), n, w);
    RowSumOfPart(part, Transpose(F), n, w, j);
    TransposeSums(F, n, j);
    forall i | 0 <= i < n
      ensures H(j, i) == G(i, j)
    {
      TransposeSums(F, n, i);
      SplitEntryIs(part, F, n, w, i, j);
      SplitEntryIs(part, Transpose(F), n, w, j, i);
    }
    SumExt(n, i => H(j, i), i => G(i, j));
  }

  lemma TotalOfPart(part: Part, F: Matrix, n: nat, w: Vector)
    requires Sum(n, w) == 1.0
    ensures Total(Split(part, F, n, w), n) == if part == NormPart then Total(F, n) else 0.0
  {
    hide Split, RowSum;
    var G, t := Split(part, F, n, w), Total(F, n);
    var r, zero: Vector := i => RowSum(F, n, i), i => 0.0;
    var a, b := if part == MixedPart then 1.0 else 0.0,
                if part == ShapePart then 0.0 else if part == MixedPart then -t else t;
    forall i | 0 <= i < n
      ensures RowSum(G, n, i) == Prod(a, r(i)) + Prod(b, w(i)) + Prod(0.0, zero(i)) + Prod(0.0, zero(i))
    {
      RowSumOfPart(part, F, n, w, i);
    }
    SumLinear(n, a, r, b, w, 0.0, zero, 0.0, zero, i => RowSum(G, n, i));
  }

  /** The three parts add up to the matrix that was split. */
  lemma PartsAddUp(F: Matrix, n: nat, w: Vector, i: int, j: int)
    ensures Split(ShapePart, F, n, w)(i, j) + Split(MixedPart, F, n, w)(i, j) + Split(NormPart, F, n, w)(i, j)
         == F(i, j)
  {
    SplitEntryIs(ShapePart, F, n, w, i, j);
    SplitEntryIs(MixedPart, F, n, w, i, j);
    SplitEntryIs(NormPart, F, n, w, i, j);
  }

  /** Shape moves no events between rows or columns, mixed moves none in total, and the
      normalisation part carries the whole total. */
  lemma PartsSums(F: Matrix, n: nat, w: Vector, i: int)
    requires Sum(n, w) == 1.0
    ensures RowSum(Split(ShapePart, F, n, w), n, i) == ColSum(Split(ShapePart, F, n, w), n, i) == 0.0
    ensures Total(Split(ShapePart, F, n, w), n) == Total(Split(MixedPart, F, n, w), n) == 0.0
    ensures Total(Split(NormPart, F, n, w), n) == Total(F, n)
  {
    hide Split, RowSum, ColSum, Total;
    RowSumOfPart(ShapePart, F, n, w, i);
    ColSumOfPart(ShapePart, F, n, w, i);
    TotalOfPart(ShapePart, F, n, w);
    TotalOfPart(MixedPart, F, n, w);
    TotalOfPart(NormPart, F, n, w);
  }

  /** The parts are projections: splitting a part again gives that part back and nothing
      in the other two places. */
  lemma SplitOfSplit(outer: Part, inner: Part, F: Matrix, n: nat, w: Vector, i: int, j: int)
    requires Sum(n, w) == 1.0
    ensures Split(outer, Split(inner, F, n, w), n, w)(i, j)
         == if outer == inner then Split(inner, F, n, w)(i, j) else 0.0
  {
    hide Split, RowSum, ColSum, Total;
    var G := Split(inner, F, n, w);
    RowSumOfPart(inner, F, n, w, i);
    ColSumOfPart(inner, F, n, w, j);
    TotalOfPart(inner, F, n, w);
    SplitEntryIs(outer, G, n, w, i, j);
    SplitEntryIs(inner, F, n, w, i, j);
  }

  /** The shape part is the whole matrix exactly when all row and column sums vanish. */
  lemma ShapeFixedPoints(F: Matrix, n: nat, w: Vector)
    requires Sum(n, w) == 1.0
    ensures SameOn(Split(ShapePart, F, n, w), F, n)
       <==> forall i :: 0 <= i < n ==> RowSum(F, n, i) == 0.0 && ColSum(F, n, i) == 0.0
  {
    hide Split;
    var G := Split(ShapePart, F, n, w);
    if SameOn(G, F, n) {
      forall i | 0 <= i < n
        ensures RowSum(F, n, i) == 0.0 && ColSum(F, n, i) == 0.0
      {
        RowSumOfPart(ShapePart, F, n, w, i);
        ColSumOfPart(ShapePart, F, n, w, i);
        SumExt(n, j => G(i, j), j => F(i, j));
        SumExt(n, k => G(k, i), k => F(k, i));
      }
    }
    if forall i :: 0 <= i < n ==> RowSum(F, n, i) == 0.0 && ColSum(F, n, i) == 0.0 {
      SumExt(n, i => RowSum(F, n, i), i => 0.0);
      SumZero(n);
      forall i, j | 0 <= i < n && 0 <= j < n
        ensures G(i, j) == F(i, j)
      {
        SplitEntryIs(ShapePart, F, n, w, i, j);
      }
    }
  }

  /** Only the direction of the weight vector matters. */
  lemma RescalingIsInvisible(part: Part, F: Matrix, n: nat, v: Vector, u: Vector, c: real, i: int, j: int)
    requires Sum(n, v) != 0.0 && c != 0.0
    requires forall k :: u(k) == c * v(k)
    ensures Sum(n, u) != 0.0
    ensures Split(part, F, n, Normalised(n, u))(i, j) == Split(part, F, n, Normalised(n, v))(i, j)
  {
    hide Split;
    SumScale(n, c, v);
    SumExt(n, u, k => c * v(k));
    Cancel(c, v(i), Sum(n, v));
    Cancel(c, v(j), Sum(n, v));
    SameWeights(part, F, n, Normalised(n, u), Normalised(n, v), i, j);
  }

  lemma SameWeights(part: Part, F: Matrix, n: nat, w: Vector, x: Vector, i: int, j: int)
    requires w(i) == x(i) && w(j) == x(j)
    ensures Split(part, F, n, w)(i, j) == Split(part, F, n, x)(i, j)
  {
    hide Split, Coefficients, RowSum, ColSum, Total;
    SplitEntryIs(part, F, n, w, i, j);
    SplitEntryIs(part, F, n, x, i, j);
  }

  lemma Cancel(c: real, x: real, t: real)
    requires c != 0.0 && t != 0.0
    ensures c * t != 0.0 && (c * x) / (c * t) == x / t
  {
    assert (x / t) * (c * t) == c * x;
  }

  // ----- The shape part as a covariance -----

  function RowSums(F: Matrix, n: nat): Vector {
    i => RowSum(F, n, i)
  }

  /** x with its weighted mean removed: the only part of a direction the shape part sees. */
  function Centred(x: Vector, s: real): Vector {
    i => x(i) - s
  }

  lemma ApplyIs(F: Matrix, n: nat, x: Vector, i: int)
    ensures Apply(F, n, x)(i) == Sum(n, Times(Row(F, i), x))
  {}

  lemma QuadIs(F: Matrix, n: nat, x: Vector)
    ensures Quad(F, n, x) == Sum(n, Times(Apply(F, n, x), x))
  {}

  function Neg(a: real): real { -a }

  lemma ShapeTerm(e: real, f: real, wi: real, wj: real, r: real, c: real, t: real, x: real)
    requires e == 1.0 * f + -1.0 * (wj * r + wi * c) + 1.0 * (wi * wj * t)
    ensures Prod(e, x)
         == Prod(1.0, Prod(f, x)) + Prod(Neg(r), Prod(wj, x)) + Prod(Neg(wi), Prod(c, x))
            + Prod(Prod(wi, t), Prod(wj, x))
  {}

  lemma ShapeRowTerm(F: Matrix, n: nat, w: Vector, x: Vector, i: int, j: int)
    ensures Times(Row(Split(ShapePart, F, n, w), i), x)(j)
         == Prod(1.0, Times(Row(F, i), x)(j)) + Prod(Neg(RowSum(F, n, i)), Times(w, x)(j))
            + Prod(Neg(w(i)), Times(ColSums(F, n), x)(j)) + Prod(Prod(w(i), Total(F, n)), Times(w, x)(j))
  {
    hide Split, RowSum, ColSum, Total, Prod;
    SplitEntryIs(ShapePart, F, n, w, i, j);
    ShapeTerm(Split(ShapePart, F, n, w)(i, j), F(i, j), w(i), w(j), RowSum(F, n, i), ColSum(F, n, j), Total(F, n),
              x(j));
  }

  /** Row i of the shape part applied to x. */
  lemma ApplyShape(F: Matrix, n: nat, w: Vector, x: Vector, i: int)
    ensures var s, cx := Sum(n, Times(w, x)), Sum(n, Times(ColSums(F, n), x));
      Apply(Split(ShapePart, F, n, w), n, x)(i)
      == Prod(1.0, Apply(F, n, x)(i)) + Prod(Neg(RowSum(F, n, i)), s) + Prod(Neg(w(i)), cx)
         + Prod(Prod(w(i), Total(F, n)), s)
  {
    var G, r, t, cols := Split(ShapePart, F, n, w), RowSum(F, n, i), Total(F, n), ColSums(F, n);
    var row := Times(Row(G, i), x);
    hide *;
    forall j
      ensures row(j)
           == Prod(1.0, Times(Row(F, i), x)(j)) + Prod(Neg(r), Times(w, x)(j)) + Prod(Neg(w(i)), Times(cols, x)(j))
                        + Prod(Prod(w(i), t), Times(w, x)(j))
    {
      ShapeRowTerm(F, n, w, x, i, j);
    }
    SumLinear(n, 1.0, Times(Row(F, i), x), Neg(r), Times(w, x), Neg(w(i)), Times(cols, x), Prod(w(i), t),
              Times(w, x), row);
    ApplyIs(G, n, x, i);
    ApplyIs(F, n, x, i);
  }

  lemma RowTimesX(f: real, r: real, s: real, wi: real, cx: real, t: real, x: real)
    ensures Prod(Prod(1.0, f) + Prod(Neg(r), s) + Prod(Neg(wi), cx) + Prod(Prod(wi, t), s), x)
         == Prod(1.0, Prod(f, x)) + Prod(Neg(s), Prod(r, x)) + Prod(Neg(cx), Prod(wi, x))
            + Prod(Prod(t, s), Prod(wi, x))
  {}

  lemma ShapeQuadTerm(F: Matrix, n: nat, w: Vector, x: Vector, i: int)
    ensures var s, cx := Sum(n, Times(w, x)), Sum(n, Times(ColSums(F, n), x));
      Times(Apply(Split(ShapePart, F, n, w), n, x), x)(i)
      == Prod(1.0, Times(Apply(F, n, x), x)(i)) + Prod(Neg(s), Times(RowSums(F, n), x)(i))
         + Prod(Neg(cx), Times(w, x)(i))
         + Prod(Prod(Total(F, n), s), Times(w, x)(i))
  {
    var s, cx := Sum(n, Times(w, x)), Sum(n, Times(ColSums(F, n), x));
    var r := RowSums(F, n);
    assert r(i) == RowSum(F, n, i);
    hide *;
    ApplyShape(F, n, w, x, i);
    RowTimesX(Apply(F, n, x)(i), r(i), s, w(i), cx, Total(F, n), x(i));
    TimesAt(Apply(Split(ShapePart, F, n, w), n, x), x, i);
    TimesAt(Apply(F, n, x), x, i);
    TimesAt(r, x, i);
    TimesAt(w, x, i);
  }

  /** x^T S x for the shape part S, in terms of F. */
  lemma ShapeQuadExpanded(F: Matrix, n: nat, w: Vector, x: Vector)
    ensures var s, cx, rx := Sum(n, Times(w, x)), Sum(n, Times(ColSums(F, n), x)), Sum(n, Times(RowSums(F, n), x));
      Quad(Split(ShapePart, F, n, w), n, x)
      == Prod(1.0, Quad(F, n, x)) + Prod(Neg(s), rx) + Prod(Neg(cx), s) + Prod(Prod(Total(F, n), s), s)
  {
    var s, cx, t := Sum(n, Times(w, x)), Sum(n, Times(ColSums(F, n), x)), Total(F, n);
    var G, r := Split(ShapePart, F, n, w), RowSums(F, n);
    var g := Times(Apply(G, n, x), x);
    hide *;
    forall i
      ensures g(i)
           == Prod(1.0, Times(Apply(F, n, x), x)(i)) + Prod(Neg(s), Times(r, x)(i)) + Prod(Neg(cx), Times(w, x)(i))
                      + Prod(Prod(t, s), Times(w, x)(i))
    {
      ShapeQuadTerm(F, n, w, x, i);
    }
    SumLinear(n, 1.0, Times(Apply(F, n, x), x), Neg(s), Times(r, x), Neg(cx), Times(w, x), Prod(t, s), Times(w, x), g);
    QuadIs(G, n, x);
    QuadIs(F, n, x);
  }

  lemma CentredEntry(f: real, x: real, s: real)
    ensures Prod(f, x - s) == Prod(1.0, Prod(f, x)) + Prod(Neg(s), f) + Prod(0.0, 0.0) + Prod(0.0, 0.0)
  {}

  lemma ApplyCentred(F: Matrix, n: nat, x: Vector, s: real, i: int)
    ensures Apply(F, n, Centred(x, s))(i) == Apply(F, n, x)(i) - s * RowSum(F, n, i)
  {
    var zero: Vector := j => 0.0;
    var g := Times(Row(F, i), Centred(x, s));
    forall j
      ensures g(j)
           == Prod(1.0, Times(Row(F, i), x)(j)) + Prod(Neg(s), Row(F, i)(j)) + Prod(0.0, zero(j)) + Prod(0.0, zero(j))
    {
      CentredEntry(F(i, j), x(j), s);
    }
    SumLinear(n, 1.0, Times(Row(F, i), x), Neg(s), Row(F, i), 0.0, zero, 0.0, zero, g);
    SumExt(n, Row(F, i), j => F(i, j));
  }

  lemma CentredTerm(f: real, r: real, s: real, x: real)
    ensures Prod(f - s * r, x - s)
         == Prod(1.0, Prod(f, x)) + Prod(Neg(s), f) + Prod(Neg(s), Prod(r, x)) + Prod(Prod(s, s), r)
  {}

  lemma CentredQuadTerm(F: Matrix, n: nat, x: Vector, s: real, i: int)
    ensures Times(Apply(F, n, Centred(x, s)), Centred(x, s))(i)
         == Prod(1.0, Times(Apply(F, n, x), x)(i)) + Prod(Neg(s), Apply(F, n, x)(i))
            + Prod(Neg(s), Times(RowSums(F, n), x)(i))
            + Prod(Prod(s, s), RowSums(F, n)(i))
  {
    var f, r, y := Apply(F, n, x), RowSums(F, n), Centred(x, s);
    assert r(i) == RowSum(F, n, i) && y(i) == x(i) - s;
    hide *;
    ApplyCentred(F, n, x, s, i);
    CentredTerm(f(i), r(i), s, x(i));
    TimesAt(Apply(F, n, y), y, i);
    TimesAt(f, x, i);
    TimesAt(r, x, i);
  }

  lemma MarginSums(F: Matrix, n: nat, x: Vector)
    ensures Sum(n, Apply(F, n, x)) == Sum(n, Times(ColSums(F, n), x))
    ensures Sum(n, RowSums(F, n)) == Total(F, n)
  {
    hide Times;
    SumOfRows(F, n, n, x);
    SumExt(n, Apply(F, n, x), k => Sum(n, Times(Row(F, k), x)));
    SumExt(n, RowSums(F, n), i => RowSum(F, n, i));
  }

  lemma CentredQuadExpanded(F: Matrix, n: nat, x: Vector, s: real)
    ensures var cx, rx := Sum(n, Times(ColSums(F, n), x)), Sum(n, Times(RowSums(F, n), x));
      Quad(F, n, Centred(x, s)) == Prod(1.0, Quad(F, n, x)) + Prod(Neg(s), cx) + Prod(Neg(s), rx)
         + Prod(Prod(s, s), Total(F, n))
  {
    var f, r, y := Apply(F, n, x), RowSums(F, n), Centred(x, s);
    var g := Times(Apply(F, n, y), y);
    hide *;
    forall i
      ensures g(i)
           == Prod(1.0, Times(f, x)(i)) + Prod(Neg(s), f(i)) + Prod(Neg(s), Times(r, x)(i)) + Prod(Prod(s, s), r(i))
    {
      CentredQuadTerm(F, n, x, s, i);
    }
    SumLinear(n, 1.0, Times(f, x), Neg(s), f, Neg(s), Times(r, x), Prod(s, s), r, g);
    MarginSums(F, n, x);
    QuadIs(F, n, x);
    QuadIs(F, n, y);
  }

  lemma SameExpansion(q: real, s: real, rx: real, cx: real, t: real)
    ensures Prod(1.0, q) + Prod(Neg(s), rx) + Prod(Neg(cx), s) + Prod(Prod(t, s), s)
         == Prod(1.0, q) + Prod(Neg(s), cx) + Prod(Neg(s), rx) + Prod(Prod(s, s), t)
  {}

  /** The shape variance of a direction is the full variance of that direction with its
      weighted mean removed; so the shape part of a covariance is again a covariance. */
  lemma ShapeVariance(F: Matrix, n: nat, w: Vector, x: Vector)
    ensures Quad(Split(ShapePart, F, n, w), n, x) == Quad(F, n, Centred(x, Sum(n, Times(w, x))))
  {
    hide *;
    var s := Sum(n, Times(w, x));
    ShapeQuadExpanded(F, n, w, x);
    CentredQuadExpanded(F, n, x, s);
    SameExpansion(Quad(F, n, x), s, Sum(n, Times(RowSums(F, n), x)), Sum(n, Times(ColSums(F, n), x)), Total(F, n));
  }

  /** In terms of the given vector: the mean that is removed is the one weighted with it. */
  lemma ShapeVarianceOfVector(F: Matrix, n: nat, v: Vector, x: Vector)
    requires Sum(n, v) != 0.0
    ensures var mean := Sum(n, Times(v, x)) / Sum(n, v);
      Quad(Split(ShapePart, F, n, Normalised(n, v)), n, x) == Quad(F, n, i => x(i) - mean)
  {
    var mean := Sum(n, Times(v, x)) / Sum(n, v);
    assert forall i :: Centred(x, mean)(i) == x(i) - mean;
    hide *;
    WeightedMean(n, v, x);
    ShapeVariance(F, n, Normalised(n, v), x);
    SameMatrix(F, n);
    QuadExt(F, F, n, Centred(x, mean), i => x(i) - mean);
  }

  lemma SameMatrix(F: Matrix, n: nat)
    ensures SameOn(F, F, n)
  {}

  lemma WeightedMean(n: nat, v: Vector, x: Vector)
    requires Sum(n, v) != 0.0
    ensures Sum(n, Times(Normalised(n, v), x)) == Sum(n, Times(v, x)) / Sum(n, v)
  {
    hide *;
    var s, vx, wx := Sum(n, v), Times(v, x), Times(Normalised(n, v), x);
    forall i | 0 <= i < n
      ensures wx(i) == Prod(1.0 / s, vx(i)) + Prod(0.0, vx(i))
    {
      NormalisedTerm(n, v, x, i);
    }
    SumOfTwo(n, 1.0 / s, vx, 0.0, vx, wx);
    OneOver(Sum(n, vx), s);
  }

  lemma NormalisedTerm(n: nat, v: Vector, x: Vector, i: int)
    requires Sum(n, v) != 0.0
    ensures Times(Normalised(n, v), x)(i) == Prod(1.0 / Sum(n, v), Times(v, x)(i)) + Prod(0.0, Times(v, x)(i))
  {
    MoveQuotient(v(i), x(i), Sum(n, v));
  }

  lemma OneOver(a: real, s: real)
    requires s != 0.0
    ensures Prod(1.0 / s, a) + Prod(0.0, a) == a / s
  {
    MoveQuotient(a, 1.0, s);
  }

  lemma MoveQuotient(a: real, b: real, s: real)
    requires s != 0.0
    ensures Prod(a / s, b) == 1.0 / s * (a * b)
  {
    assert (a / s) * s == a;
  }

  lemma ShapeIsCovariance(F: Matrix, n: nat, w: Vector)
    ensures PositiveSemidefinite(F, n) ==> PositiveSemidefinite(Split(ShapePart, F, n, w), n)
    ensures Symmetric(F, n) ==> Symmetric(Split(ShapePart, F, n, w), n)
  {
    hide Split;
    if PositiveSemidefinite(F, n) {
      forall x: Vector
        ensures Quad(Split(ShapePart, F, n, w), n, x) >= 0.0
      {
        ShapeVariance(F, n, w, x);
      }
    }
    if Symmetric(F, n) {
      forall i, j | 0 <= i < n && 0 <= j < n
        ensures Split(ShapePart, F, n, w)(i, j) == Split(ShapePart, F, n, w)(j, i)
      {
        SplitEntryIs(ShapePart, F, n, w, i, j);
        SplitEntryIs(ShapePart, F, n, w, j, i);
        SumExt(n, l => F(i, l), l => F(l, i));
        SumExt(n, l => F(j, l), l => F(l, j));
      }
    }
  }
}
