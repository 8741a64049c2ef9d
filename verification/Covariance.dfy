/** The covariance collapse of hive/src/bdt_datamc.cxx: a fractional covariance over
    stack x bins entries is scaled by the predicted spectrum, the blocks of the stack are
    summed, and the total normalisation variance is read off the result. */
module Covariance {
  import opened Sums
  import opened Matrices
  import opened Doubles
  import opened Arithmetic

  // ----- Specification -----

  /** Position (a, b) of block (n, m). */
  function Cell(F: Matrix, width: nat, a: int, b: int): Matrix {
    (n, m) => F(n * width + a, m * width + b)
  }

  /** Entry (a, b) sums position (a, b) of every block, one block column after the other. */
  function Collapse(F: Matrix, blocks: nat, width: nat): Matrix {
    (a, b) => Sum(blocks, m => ColSum(Cell(F, width, a, b), blocks, m))
  }

  /** Stored matrix `m` has the entries of `F` where they are finite, and `F` is zero elsewhere. */
  ghost predicate HoldsCleaned(m: array2<Double>, F: Matrix)
    reads m
  {
    forall i, j :: 0 <= i < m.Length0 && 0 <= j < m.Length1 ==>
      F(i, j) == if m[i, j].Finite? then m[i, j].value else 0.0
  }

  // ----- The loops -----

  /** `acc += min.GetSub(row0 .., col0 ..)` for an acc-sized block. */
  method AddBlock(min: array2<real>, row0: nat, col0: nat, acc: array2<real>, ghost F: Matrix, ghost A: Matrix)
    requires row0 + acc.Length0 <= min.Length0 && col0 + acc.Length1 <= min.Length1
    requires acc != min && Holds(min, F) && Holds(acc, A)
    modifies acc
    ensures Holds(acc, (a, b) => A(a, b) + F(row0 + a, col0 + b))
  {
    for a := 0 to acc.Length0
      invariant Holds(min, F)
      invariant forall i, j :: 0 <= i < acc.Length0 && 0 <= j < acc.Length1 ==>
        acc[i, j] == A(i, j) + if i < a then F(row0 + i, col0 + j) else 0.0
    {
      for b := 0 to acc.Length1
        invariant Holds(min, F)
        invariant forall i, j :: 0 <= i < acc.Length0 && 0 <= j < acc.Length1 ==>
          acc[i, j] == A(i, j) + if i < a || (i == a && j < b) then F(row0 + i, col0 + j) else 0.0
      {
        acc[a, b] := acc[a, b] + min[row0 + a, col0 + b];
      }
    }
  }

  lemma BlockInside(k: nat, blocks: nat, width: nat)
    requires k < blocks
    ensures k * width + width <= blocks * width
  {
    MulMonotone(k + 1, blocks, width);
    assert (k + 1) * width == k * width + width;
  }

  /** What the accumulator holds after m whole block columns and n blocks of the next. */
  function Partial(F: Matrix, blocks: nat, width: nat, m: nat, n: nat): Matrix {
    (a, b) => Sum(m, k => ColSum(Cell(F, width, a, b), blocks, k)) + ColSum(Cell(F, width, a, b), n, m)
  }

  lemma PartialSteps(F: Matrix, blocks: nat, width: nat, m: nat, n: nat, a: int, b: int)
    ensures Partial(F, blocks, width, 0, 0)(a, b) == 0.0
    ensures Partial(F, blocks, width, m, n + 1)(a, b)
         == Partial(F, blocks, width, m, n)(a, b) + F(n * width + a, m * width + b)
    ensures Partial(F, blocks, width, m + 1, 0)(a, b) == Partial(F, blocks, width, m, blocks)(a, b)
    ensures Partial(F, blocks, width, blocks, 0)(a, b) == Collapse(F, blocks, width)(a, b)
  {}

  /** The inner loop: the blocks of column m. */
  method AddBlockColumn(min: array2<real>, blocks: nat, width: nat, m: nat, summed: array2<real>, ghost F: Matrix)
    requires min.Length0 >= blocks * width && min.Length1 >= blocks * width && m < blocks
    requires summed.Length0 == summed.Length1 == width && summed != min
    requires Holds(min, F) && Holds(summed, Partial(F, blocks, width, m, 0))
    modifies summed
    ensures Holds(summed, Partial(F, blocks, width, m + 1, 0))
  {
    hide Partial, Collapse;
    BlockInside(m, blocks, width);
    for n := 0 to blocks
      invariant Holds(min, F) && Holds(summed, Partial(F, blocks, width, m, n))
    {
      BlockInside(n, blocks, width);
      AddBlock(min, n * width, m * width, summed, F, Partial(F, blocks, width, m, n));
      forall a, b { PartialSteps(F, blocks, width, m, n, a, b); }
    }
    forall a, b { PartialSteps(F, blocks, width, m, 0, a, b); }
  }

  /** Loop shared by `simpleCollapse` and `calcTotalNormError`, which repeat it with one
      channel of `blocks` subchannels of `width` bins. */
  method SumSubchannels(min: array2<real>, blocks: nat, width: nat, ghost F: Matrix) returns (summed: array2<real>)
    requires min.Length0 >= blocks * width && min.Length1 >= blocks * width
    requires Holds(min, F)
    ensures fresh(summed) && summed.Length0 == summed.Length1 == width
    ensures Holds(summed, Collapse(F, blocks, width))
  {
    hide Partial, Collapse;
    summed := new real[width, width]((i, j) => 0.0);
    forall a, b { PartialSteps(F, blocks, width, 0, 0, a, b); }
    for m := 0 to blocks
      invariant Holds(min, F) && Holds(summed, Partial(F, blocks, width, m, 0))
    {
      AddBlockColumn(min, blocks, width, m, summed, F);
    }
    forall a, b { PartialSteps(F, blocks, width, 0, 0, a, b); }
  }

  lemma CollapseEntry(F: Matrix, stack: nat, bins: nat, a: int, b: int)
    ensures Collapse(F, stack, bins)(a, b) == Sum(stack, m => Sum(stack, n => F(n * bins + a, m * bins + b)))
  {
    var G := Cell(F, bins, a, b);
    forall m | 0 <= m < stack
      ensures ColSum(G, stack, m) == Sum(stack, n => F(n * bins + a, m * bins + b))
    {
      SumExt(stack, n => G(n, m), n => F(n * bins + a, m * bins + b));
    }
    SumExt(stack, m => ColSum(G, stack, m), m => Sum(stack, n => F(n * bins + a, m * bins + b)));
  }

  /** `simpleCollapse`: `out` is zeroed and the summed block is written at its corner. */
  method SimpleCollapse(min: array2<real>, out: array2<real>, stack: nat, bins: nat, ghost F: Matrix)
    requires min.Length0 >= stack * bins && min.Length1 >= stack * bins
    requires out.Length0 == out.Length1 == bins
    requires Holds(min, F)
    modifies out
    ensures Holds(out, Collapse(F, stack, bins))
    ensures forall a, b :: 0 <= a < bins && 0 <= b < bins ==>
      out[a, b] == Sum(stack, m => Sum(stack, n => F(n * bins + a, m * bins + b)))
  {
    forall a, b { CollapseEntry(F, stack, bins, a, b); }
    hide Collapse;
    var summed := SumSubchannels(min, stack, bins, F);
    ghost var C := Collapse(F, stack, bins);
    for a := 0 to bins
      invariant Holds(summed, C)
      invariant forall i, j :: 0 <= i < a && 0 <= j < bins ==> out[i, j] == C(i, j)
    {
      for b := 0 to bins
        invariant Holds(summed, C)
        invariant forall i, j :: 0 <= i < bins && 0 <= j < bins && (i < a || (i == a && j < b)) ==>
          out[i, j] == C(i, j)
      {
        out[a, b] := summed[a, b];
      }
    }
  }

  /** `calcCollapsedCovariance`: exits (here: `ok` is false) on the two size errors, otherwise
      zeroes non-finite entries, scales by the spectrum and collapses the stack. */
  method CalcCollapsedCovariance(frac: array2<Double>, spectrum: seq<real>, stack: nat, bins: nat,
                                 out: array2<real>, ghost F: Matrix) returns (ok: bool)
    requires frac.Length0 == frac.Length1 && stack > 0
    requires out.Length0 == out.Length1 == bins
    requires HoldsCleaned(frac, F)
    modifies out
    ensures ok <==> |spectrum| == frac.Length0 && bins == frac.Length0 / stack
    ensures ok ==> Holds(out, Collapse(Scaled(F, Weights(spectrum)), stack, bins))
    ensures ok ==> forall a, b :: 0 <= a < bins && 0 <= b < bins ==>
      var v := Weights(spectrum);
      out[a, b] == Sum(stack, m => Sum(stack, n =>
                     F(n * bins + a, m * bins + b) * v(n * bins + a) * v(m * bins + b)))
    ensures !ok ==> unchanged(out)
  {
    var n := frac.Length0;
    if |spectrum| != n || bins != n / stack {
      return false;
    }
    var full := new real[n, n]((i, j) => 0.0);
    ghost var S := Scaled(F, Weights(spectrum));
    for i := 0 to n
      invariant forall k, l :: 0 <= k < i && 0 <= l < n ==> full[k, l] == S(k, l)
    {
      for j := 0 to n
        invariant forall k, l :: 0 <= k < n && 0 <= l < n && (k < i || (k == i && l < j)) ==> full[k, l] == S(k, l)
      {
        var pt := frac[i, j].OrZero();
        full[i, j] := pt * spectrum[i] * spectrum[j];
      }
    }
    LeadingBlockFits(n, stack);
    SimpleCollapse(full, out, stack, bins, S);
    forall a, b { ScaledCollapseEntry(F, Weights(spectrum), stack, bins, a, b); }
    ok := true;
  }

  lemma ScaledCollapseEntry(F: Matrix, v: Vector, stack: nat, bins: nat, a: int, b: int)
    ensures Collapse(Scaled(F, v), stack, bins)(a, b)
         == Sum(stack, m => Sum(stack, n => F(n * bins + a, m * bins + b) * v(n * bins + a) * v(m * bins + b)))
  {
    hide Sum, Collapse;
    var S := Scaled(F, v);
    CollapseEntry(S, stack, bins, a, b);
    forall m | 0 <= m < stack
      ensures Sum(stack, n => S(n * bins + a, m * bins + b))
           == Sum(stack, n => F(n * bins + a, m * bins + b) * v(n * bins + a) * v(m * bins + b))
    {
      SumExt(stack, n => S(n * bins + a, m * bins + b),
             n => F(n * bins + a, m * bins + b) * v(n * bins + a) * v(m * bins + b));
    }
    SumExt(stack, m => Sum(stack, n => S(n * bins + a, m * bins + b)),
           m => Sum(stack, n => F(n * bins + a, m * bins + b) * v(n * bins + a) * v(m * bins + b)));
  }

  lemma LeadingBlockFits(n: nat, stack: nat)
    requires stack > 0
    ensures stack * (n / stack) <= n
  {}

  /** `calcTotalNormError`: one channel of `bins` subchannels of a single bin. */
  method CalcTotalNormError(min: array2<real>, bins: nat, ghost F: Matrix) returns (variance: real)
    requires min.Length0 >= bins && min.Length1 >= bins
    requires Holds(min, F)
    ensures variance == Total(F, bins)
  {
    var summed := SumSubchannels(min, bins, 1, F);
    variance := summed[0, 0];
    CollapseToOne(F, bins);
  }

  lemma CollapseToOne(F: Matrix, n: nat)
    ensures Collapse(F, n, 1)(0, 0) == Total(F, n)
  {
    TotalByColumns(F, n);
    var G := Cell(F, 1, 0, 0);
    forall m | 0 <= m < n
      ensures ColSum(G, n, m) == ColSum(F, n, m)
    {
      SumExt(n, i => G(i, m), i => F(i, m));
    }
    SumExt(n, m => ColSum(G, n, m), j => ColSum(F, n, j));
  }

  // ----- What the collapse preserves -----

  /** The bins of a stacked vector, summed over its first `blocks` blocks. */
  function BinSums(f: Vector, blocks: nat, width: nat): Vector {
    b => Sum(blocks, m => f(m * width + b))
  }

  /** x repeated over every block. */
  function Periodic(x: Vector, width: int): Vector
    requires width > 0
  {
    i => x(i % width)
  }

  function Shift(f: Vector, offset: int): Vector {
    i => f(offset + i)
  }

  lemma PeriodicInBlock(y: Vector, k: int, width: nat, i: int)
    requires 0 <= i < width
    ensures Periodic(y, width)(k * width + i) == y(i)
  {
    SplitIndex(k, width, i);
  }

  lemma BlockTerms(f: Vector, k: nat, width: nat, y: Vector)
    requires width > 0
    ensures Sum(k * width + width, Times(f, Periodic(y, width)))
         == Sum(k * width, Times(f, Periodic(y, width))) + Sum(width, Times(Shift(f, k * width), y))
  {
    hide Periodic;
    var g := Times(f, Periodic(y, width));
    SumSplit(k * width, width, g);
    forall i | 0 <= i < width
      ensures g(k * width + i) == Times(Shift(f, k * width), y)(i)
    {
      PeriodicInBlock(y, k, width, i);
    }
    SumExt(width, i => g(k * width + i), Times(Shift(f, k * width), y));
  }

  /** One-dimensional collapse: weights that only depend on the bin can be applied after
      summing each bin over the blocks. */
  lemma {:induction false} FoldBlocks(f: Vector, blocks: nat, width: nat, y: Vector)
    requires width > 0
    ensures Sum(blocks * width, Times(f, Periodic(y, width))) == Sum(width, Times(BinSums(f, blocks, width), y))
  {
    hide Times, Periodic;
    if blocks == 0 {
      TimesZero(width, BinSums(f, blocks, width), y);
    } else {
      var k := blocks - 1;
      assert blocks * width == k * width + width;
      BlockTerms(f, k, width, y);
      FoldBlocks(f, k, width, y);
      TimesAdd(width, BinSums(f, k, width), Shift(f, k * width), BinSums(f, blocks, width), y);
    }
  }

  /** Row a of the collapsed matrix applied to x, from the rows of the blocks. */
  lemma CollapsedRow(F: Matrix, blocks: nat, width: nat, x: Vector, a: int)
    ensures Sum(blocks, k => Sum(width, Times(BinSums(Row(F, k * width + a), blocks, width), x)))
         == Apply(Collapse(F, blocks, width), width, x)(a)
  {
    hide Times;
    var G: Matrix := (k, b) => BinSums(Row(F, k * width + a), blocks, width)(b);
    forall k | 0 <= k < blocks
      ensures Sum(width, Times(BinSums(Row(F, k * width + a), blocks, width), x)) == Sum(width, Times(Row(G, k), x))
    {
      TimesExt(width, BinSums(Row(F, k * width + a), blocks, width), x, Row(G, k), x);
    }
    SumExt(blocks, k => Sum(width, Times(BinSums(Row(F, k * width + a), blocks, width), x)),
           k => Sum(width, Times(Row(G, k), x)));
    SumOfRows(G, blocks, width, x);
    forall b | 0 <= b < width
      ensures ColSums(G, blocks)(b) == Row(Collapse(F, blocks, width), a)(b)
    {
      CollapsedEntry(F, blocks, width, a, b);
      SumExt(blocks, k => G(k, b), k => BinSums(Row(F, k * width + a), blocks, width)(b));
    }
    TimesExt(width, ColSums(G, blocks), x, Row(Collapse(F, blocks, width), a), x);
  }

  lemma BinSumsOfRow(F: Matrix, blocks: nat, width: nat, a: int, b: int, k: nat)
    ensures BinSums(Row(F, k * width + a), blocks, width)(b) == RowSum(Cell(F, width, a, b), blocks, k)
  {
    var row, cell := Row(F, k * width + a), Cell(F, width, a, b);
    forall m
      ensures row(m * width + b) == cell(k, m)
    {
      assert cell(k, m) == F(k * width + a, m * width + b);
    }
    SumExt(blocks, m => row(m * width + b), j => cell(k, j));
  }

  lemma CollapsedEntry(F: Matrix, blocks: nat, width: nat, a: int, b: int)
    ensures Sum(blocks, k => BinSums(Row(F, k * width + a), blocks, width)(b)) == Collapse(F, blocks, width)(a, b)
  {
    hide BinSums;
    var G := Cell(F, width, a, b);
    TotalByColumns(G, blocks);
    forall k | 0 <= k < blocks
      ensures BinSums(Row(F, k * width + a), blocks, width)(b) == RowSum(G, blocks, k)
    {
      BinSumsOfRow(F, blocks, width, a, b, k);
    }
    SumExt(blocks, k => BinSums(Row(F, k * width + a), blocks, width)(b), k => RowSum(G, blocks, k));
    SumExt(blocks, m => ColSum(G, blocks, m), j => ColSum(G, blocks, j));
  }

  /** Collapsing preserves the bilinear form: both arguments are repeated over the blocks. */
  lemma CollapseBilinear(F: Matrix, blocks: nat, width: nat, y: Vector, x: Vector)
    requires width > 0
    ensures Bilinear(Collapse(F, blocks, width), width, y, x)
         == Bilinear(F, blocks * width, Periodic(y, width), Periodic(x, width))
  {
    hide Times, Periodic, Collapse;
    var n, p, q := blocks * width, Periodic(x, width), Periodic(y, width);
    var r: Vector := i => Sum(width, Times(BinSums(Row(F, i), blocks, width), x));
    forall i | 0 <= i < n
      ensures Apply(F, n, p)(i) == r(i)
    {
      FoldBlocks(Row(F, i), blocks, width, x);
    }
    TimesExt(n, Apply(F, n, p), q, r, q);
    FoldBlocks(r, blocks, width, y);
    forall a | 0 <= a < width
      ensures BinSums(r, blocks, width)(a) == Apply(Collapse(F, blocks, width), width, x)(a)
    {
      CollapsedRow(F, blocks, width, x, a);
      SumExt(blocks, m => r(m * width + a), k => Sum(width, Times(BinSums(Row(F, k * width + a), blocks, width), x)));
    }
    TimesExt(width, BinSums(r, blocks, width), y, Apply(Collapse(F, blocks, width), width, x), y);
  }

  /** The matrix `calcCollapsedCovariance` writes. */
  function Collapsed(F: Matrix, v: Vector, stack: nat, bins: nat): Matrix {
    Collapse(Scaled(F, v), stack, bins)
  }

  /** The point of the full space a collapsed direction stands for: x_(i mod bins) v_i. */
  function Lift(x: Vector, v: Vector, bins: int): Vector
    requires bins > 0
  {
    Times(Periodic(x, bins), v)
  }

  /** The covariance of every two directions x and y survives scaling and collapsing. */
  lemma CollapsedForm(F: Matrix, v: Vector, stack: nat, bins: nat, y: Vector, x: Vector)
    requires bins > 0
    ensures Bilinear(Collapsed(F, v, stack, bins), bins, y, x)
         == Bilinear(F, stack * bins, Lift(y, v, bins), Lift(x, v, bins))
  {
    hide Collapse, Times, Bilinear, Periodic, Scaled;
    CollapseBilinear(Scaled(F, v), stack, bins, y, x);
    BilinearScaled(F, stack * bins, v, Periodic(y, bins), Periodic(x, bins));
  }

  /** In particular the variance of every direction. */
  lemma CollapsedVariance(F: Matrix, v: Vector, stack: nat, bins: nat, x: Vector)
    requires bins > 0
    ensures Quad(Collapsed(F, v, stack, bins), bins, x) == Quad(F, stack * bins, Lift(x, v, bins))
  {
    CollapsedForm(F, v, stack, bins, x, x);
  }

  /** So a covariance stays a covariance: positive semidefinite and symmetric. */
  lemma CollapsedIsCovariance(F: Matrix, v: Vector, stack: nat, bins: nat)
    requires bins > 0
    ensures PositiveSemidefinite(F, stack * bins) ==> PositiveSemidefinite(Collapsed(F, v, stack, bins), bins)
    ensures Symmetric(F, stack * bins) ==> Symmetric(Collapsed(F, v, stack, bins), bins)
  {
    if PositiveSemidefinite(F, stack * bins) {
      forall x: Vector
        ensures Quad(Collapsed(F, v, stack, bins), bins, x) >= 0.0
      {
        CollapsedVariance(F, v, stack, bins, x);
      }
    }
    if Symmetric(F, stack * bins) {
      forall a, b | 0 <= a < bins && 0 <= b < bins
        ensures Collapsed(F, v, stack, bins)(a, b) == Collapsed(F, v, stack, bins)(b, a)
      {
        CollapseSymmetric(Scaled(F, v), stack, bins, a, b);
      }
    }
  }

  lemma CollapseSymmetric(F: Matrix, blocks: nat, width: nat, a: nat, b: nat)
    requires a < width && b < width
    requires Symmetric(F, blocks * width)
    ensures Collapse(F, blocks, width)(a, b) == Collapse(F, blocks, width)(b, a)
  {
    var G, H := Cell(F, width, a, b), Cell(F, width, b, a);
    forall m | 0 <= m < blocks
      ensures ColSum(G, blocks, m) == RowSum(H, blocks, m)
    {
      CellsMirror(F, blocks, width, a, b, m);
      SumExt(blocks, n => G(n, m), n => H(m, n));
    }
    SumExt(blocks, m => ColSum(G, blocks, m), m => RowSum(H, blocks, m));
    TotalByColumns(H, blocks);
  }

  lemma CellsMirror(F: Matrix, blocks: nat, width: nat, a: nat, b: nat, m: nat)
    requires a < width && b < width && m < blocks
    requires Symmetric(F, blocks * width)
    ensures forall n :: 0 <= n < blocks ==> Cell(F, width, a, b)(n, m) == Cell(F, width, b, a)(m, n)
  {
    BlockInside(m, blocks, width);
    forall n | 0 <= n < blocks
      ensures Cell(F, width, a, b)(n, m) == Cell(F, width, b, a)(m, n)
    {
      BlockInside(n, blocks, width);
    }
  }

  /** `calcTotalNormError` of the collapsed matrix is the grand sum of the full one, which is
      the variance of the total prediction, v^T F v. */
  lemma TotalNormIsFullVariance(F: Matrix, v: Vector, stack: nat, bins: nat)
    requires bins > 0
    ensures Total(Collapsed(F, v, stack, bins), bins) == Total(Scaled(F, v), stack * bins)
    ensures Total(Collapsed(F, v, stack, bins), bins) == Quad(F, stack * bins, v)
  {
    hide Collapse, Bilinear, Total;
    var n, ones := stack * bins, (i: int) => 1.0;
    TotalIsQuadAtOnes(Collapsed(F, v, stack, bins), bins);
    CollapseBilinear(Scaled(F, v), stack, bins, ones, ones);
    QuadExt(Scaled(F, v), Scaled(F, v), n, Periodic(ones, bins), ones);
    TotalIsQuadAtOnes(Scaled(F, v), n);
    BilinearScaled(F, n, v, ones, ones);
    QuadExt(F, F, n, Times(ones, v), v);
  }
}
