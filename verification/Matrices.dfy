/** Square matrices of reals: the contents of a two-dimensional array, its sums and the
    quadratic form x^T F x. */
module Matrices {
  import opened Sums

  type Vector = int -> real
  type Matrix = (int, int) -> real

  /** Stored matrix `m` has the entries of `F`. */
  ghost predicate Holds(m: array2<real>, F: Matrix)
    reads m
  {
    forall i, j :: 0 <= i < m.Length0 && 0 <= j < m.Length1 ==> m[i, j] == F(i, j)
  }

  function Weights(v: seq<real>): (w: Vector)
    ensures forall i :: 0 <= i < |v| ==> w(i) == v[i]
  {
    i => if 0 <= i < |v| then v[i] else 0.0
  }

  function RowSum(F: Matrix, n: nat, i: int): real {
    Sum(n, j => F(i, j))
  }

  function ColSum(F: Matrix, n: nat, j: int): real {
    Sum(n, i => F(i, j))
  }

  function Total(F: Matrix, n: nat): real {
    Sum(n, i => RowSum(F, n, i))
  }

  function Row(F: Matrix, i: int): Vector {
    j => F(i, j)
  }

  /** The column sums over the first `count` rows. */
  function ColSums(F: Matrix, count: nat): Vector {
    j => ColSum(F, count, j)
  }

  /** Entry (i, j) multiplied by v(i) v(j). */
  function Scaled(F: Matrix, v: Vector): Matrix {
    (i, j) => F(i, j) * v(i) * v(j)
  }

  /** F x, over the first n indices. */
  function Apply(F: Matrix, n: nat, x: Vector): Vector {
    i => Sum(n, Times(Row(F, i), x))
  }

  /** y^T F x */
  function Bilinear(F: Matrix, n: nat, y: Vector, x: Vector): real {
    Sum(n, Times(Apply(F, n, x), y))
  }

  /** x^T F x */
  function Quad(F: Matrix, n: nat, x: Vector): real {
    Bilinear(F, n, x, x)
  }

  ghost predicate Symmetric(F: Matrix, n: nat) {
    forall i, j :: 0 <= i < n && 0 <= j < n ==> F(i, j) == F(j, i)
  }

  ghost predicate PositiveSemidefinite(F: Matrix, n: nat) {
    forall x: Vector :: Quad(F, n, x) >= 0.0
  }

  ghost predicate SameOn(F: Matrix, G: Matrix, n: nat) {
    forall i, j :: 0 <= i < n && 0 <= j < n ==> F(i, j) == G(i, j)
  }

  lemma QuadExt(F: Matrix, G: Matrix, n: nat, x: Vector, y: Vector)
    requires SameOn(F, G, n)
    requires forall i :: 0 <= i < n ==> x(i) == y(i)
    ensures Quad(F, n, x) == Quad(G, n, y)
  {
    hide Times;
    forall i | 0 <= i < n
      ensures Apply(F, n, x)(i) == Apply(G, n, y)(i)
    {
      TimesExt(n, Row(F, i), x, Row(G, i), y);
    }
    TimesExt(n, Apply(F, n, x), x, Apply(G, n, y), y);
  }

  /** The grand sum, column by column. */
  lemma TotalByColumns(F: Matrix, n: nat)
    ensures Total(F, n) == Sum(n, j => ColSum(F, n, j))
  {
    SumSwap(n, n, F);
    SumExt(n, i => RowSum(F, n, i), i => Sum(n, j => F(i, j)));
    SumExt(n, j => ColSum(F, n, j), j => Sum(n, i => F(i, j)));
  }

  /** The grand sum is the quadratic form at (1, ..., 1). */
  lemma TotalIsQuadAtOnes(F: Matrix, n: nat)
    ensures Total(F, n) == Quad(F, n, i => 1.0)
  {
    var ones: Vector := i => 1.0;
    forall i | 0 <= i < n
      ensures RowSum(F, n, i) == Apply(F, n, ones)(i)
    {
      SumExt(n, j => F(i, j), Times(Row(F, i), ones));
    }
    SumExt(n, i => RowSum(F, n, i), Times(Apply(F, n, ones), ones));
  }

  /** Summing rows of G x is applying the summed row. */
  lemma {:induction false} SumOfRows(G: Matrix, count: nat, n: nat, x: Vector)
    ensures Sum(count, k => Sum(n, Times(Row(G, k), x))) == Sum(n, Times(ColSums(G, count), x))
  {
    hide Times;
    if count == 0 {
      TimesZero(n, ColSums(G, count), x);
    } else {
      SumOfRows(G, count - 1, n, x);
      TimesAdd(n, ColSums(G, count - 1), Row(G, count - 1), ColSums(G, count), x);
    }
  }

  /** Scaling row i and column i by v(i) moves the weights into the arguments. */
  lemma BilinearScaled(F: Matrix, n: nat, v: Vector, y: Vector, x: Vector)
    ensures Bilinear(Scaled(F, v), n, y, x) == Bilinear(F, n, Times(y, v), Times(x, v))
  {
    var S, yv, xv := Scaled(F, v), Times(y, v), Times(x, v);
    forall i | 0 <= i < n
      ensures Times(Apply(S, n, x), y)(i) == Times(Apply(F, n, xv), yv)(i)
    {
      ScaledRow(F, n, v, x, i);
      ReorderFactors(v(i), Apply(F, n, xv)(i), y(i));
    }
    SumExt(n, Times(Apply(S, n, x), y), Times(Apply(F, n, xv), yv));
  }

  lemma ScaledRow(F: Matrix, n: nat, v: Vector, x: Vector, i: int)
    ensures Apply(Scaled(F, v), n, x)(i) == v(i) * Apply(F, n, Times(x, v))(i)
  {
    var fx := Times(Row(F, i), Times(x, v));
    forall j | 0 <= j < n
      ensures Times(Row(Scaled(F, v), i), x)(j) == v(i) * fx(j)
    {
      ReorderWeights(F(i, j), v(i), v(j), x(j));
    }
    SumScale(n, v(i), fx);
    SumExt(n, Times(Row(Scaled(F, v), i), x), j => v(i) * fx(j));
  }

  lemma ReorderWeights(f: real, vi: real, vj: real, x: real)
    ensures Prod(f * vi * vj, x) == vi * Prod(f, Prod(x, vj))
  {}

  lemma ReorderFactors(a: real, b: real, c: real)
    ensures (a * b) * c == b * (c * a)
  {}
}
