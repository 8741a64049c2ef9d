/** Finite sums of reals and the exchange laws the matrix proofs rest on. */
module Sums {

  /** A product kept as a named term, so that a proof can treat it as one quantity. */
  function Prod(a: real, b: real): real { a * b }

  /** f(0) + ... + f(n - 1) */
  function Sum(n: nat, f: int -> real): real {
    if n == 0 then 0.0 else Sum(n - 1, f) + f(n - 1)
  }

  lemma {:induction false} SumExt(n: nat, f: int -> real, g: int -> real)
    requires forall i :: 0 <= i < n ==> f(i) == g(i)
    ensures Sum(n, f) == Sum(n, g)
  {
    if n > 0 {
      SumExt(n - 1, f, g);
    }
  }

  lemma {:induction false} SumZero(n: nat)
    ensures Sum(n, i => 0.0) == 0.0
  {
    if n > 0 {
      SumZero(n - 1);
    }
  }

  lemma {:induction false} SumAdd(n: nat, f: int -> real, g: int -> real)
    ensures Sum(n, i => f(i) + g(i)) == Sum(n, f) + Sum(n, g)
  {
    if n > 0 {
      SumAdd(n - 1, f, g);
    }
  }

  lemma {:induction false} SumScale(n: nat, c: real, f: int -> real)
    ensures Sum(n, i => c * f(i)) == c * Sum(n, f)
  {
    if n > 0 {
      SumScale(n - 1, c, f);
    }
  }

  /** A sum of combinations a f(i) + b g(i). */
  lemma SumOfTwo(n: nat, a: real, f: int -> real, b: real, g: int -> real, s: int -> real)
    requires forall i :: 0 <= i < n ==> s(i) == Prod(a, f(i)) + Prod(b, g(i))
    ensures Sum(n, s) == Prod(a, Sum(n, f)) + Prod(b, Sum(n, g))
  {
    var af, bg := i => a * f(i), i => b * g(i);
    assert Sum(n, af) == Prod(a, Sum(n, f)) by { SumScale(n, a, f); }
    assert Sum(n, bg) == Prod(b, Sum(n, g)) by { SumScale(n, b, g); }
    var both := i => af(i) + bg(i);
    forall i | 0 <= i < n
      ensures s(i) == both(i)
    {
      assert af(i) == Prod(a, f(i)) && bg(i) == Prod(b, g(i));
    }
    SumExt(n, s, both);
    SumAdd(n, af, bg);
  }

  /** A sum of combinations a f(i) + b g(i) + c h(i) + d k(i). */
  lemma SumLinear(n: nat, a: real, f: int -> real, b: real, g: int -> real,
                  c: real, h: int -> real, d: real, k: int -> real, s: int -> real)
    requires forall i :: 0 <= i < n ==> s(i) == Prod(a, f(i)) + Prod(b, g(i)) + Prod(c, h(i)) + Prod(d, k(i))
    ensures Sum(n, s) == Prod(a, Sum(n, f)) + Prod(b, Sum(n, g)) + Prod(c, Sum(n, h)) + Prod(d, Sum(n, k))
  {
    hide Prod;
    var fg, hk := i => Prod(a, f(i)) + Prod(b, g(i)), i => Prod(c, h(i)) + Prod(d, k(i));
    SumOfTwo(n, a, f, b, g, fg);
    SumOfTwo(n, c, h, d, k, hk);
    SumExt(n, s, i => fg(i) + hk(i));
    SumAdd(n, fg, hk);
  }

  /** Sums over a rectangle do not depend on the order of the two loops. */
  lemma {:induction false} SumSwap(n: nat, m: nat, f: (int, int) -> real)
    ensures Sum(n, i => Sum(m, j => f(i, j))) == Sum(m, j => Sum(n, i => f(i, j)))
  {
    if n == 0 {
      SumExt(m, j => Sum(n, i => f(i, j)), j => 0.0);
      SumZero(m);
    } else {
      SumSwap(n - 1, m, f);
      var upper, last := j => Sum(n - 1, i => f(i, j)), j => f(n - 1, j);
      SumAdd(m, upper, last);
      SumExt(m, j => Sum(n, i => f(i, j)), j => upper(j) + last(j));
    }
  }

  lemma {:induction false} SumSplit(n: nat, m: nat, f: int -> real)
    ensures Sum(n + m, f) == Sum(n, f) + Sum(m, i => f(n + i))
  {
    if m > 0 {
      SumSplit(n, m - 1, f);
    }
  }

  /** A sum over blocks * width indices, block by block. */
  lemma {:induction false} SumBlocks(blocks: nat, width: nat, f: int -> real)
    ensures Sum(blocks * width, f) == Sum(blocks, k => Sum(width, i => f(k * width + i)))
  {
    if blocks > 0 {
      var k := blocks - 1;
      assert blocks * width == k * width + width;
      SumBlocks(k, width, f);
      SumSplit(k * width, width, f);
      SumExt(width, i => f(k * width + i), i => f(k * width + i));
    }
  }

  // ----- Inner products -----

  /** The pointwise product, whose sum is the inner product of f and g. */
  function Times(f: int -> real, g: int -> real): int -> real {
    i => Prod(f(i), g(i))
  }

  lemma TimesAt(f: int -> real, g: int -> real, i: int)
    ensures Times(f, g)(i) == Prod(f(i), g(i))
  {}

  lemma TimesExt(n: nat, f: int -> real, g: int -> real, h: int -> real, k: int -> real)
    requires forall i :: 0 <= i < n ==> f(i) == h(i) && g(i) == k(i)
    ensures Sum(n, Times(f, g)) == Sum(n, Times(h, k))
  {
    SumExt(n, Times(f, g), Times(h, k));
  }

  lemma TimesAdd(n: nat, f: int -> real, g: int -> real, sum: int -> real, y: int -> real)
    requires forall i :: 0 <= i < n ==> sum(i) == f(i) + g(i)
    ensures Sum(n, Times(sum, y)) == Sum(n, Times(f, y)) + Sum(n, Times(g, y))
  {
    SumAdd(n, Times(f, y), Times(g, y));
    forall i | 0 <= i < n
      ensures Times(sum, y)(i) == Times(f, y)(i) + Times(g, y)(i)
    {
      assert (f(i) + g(i)) * y(i) == f(i) * y(i) + g(i) * y(i);
    }
    SumExt(n, Times(sum, y), i => Times(f, y)(i) + Times(g, y)(i));
  }

  lemma TimesZero(n: nat, f: int -> real, y: int -> real)
    requires forall i :: 0 <= i < n ==> f(i) == 0.0
    ensures Sum(n, Times(f, y)) == 0.0
  {
    SumZero(n);
    SumExt(n, Times(f, y), i => 0.0);
  }
}
