/** Integer products, quotients and remainders, as the block and grid indices need them. */
module Arithmetic {

  lemma MulMonotone(a: int, b: int, size: nat)
    requires a <= b
    ensures a * size <= b * size
  {
    assert (b - a) * size >= 0;
    assert (b - a) * size == b * size - a * size;
  }

  /** Block q of `size` entries lies below `total` blocks exactly when its entries do. */
  lemma BlockBounds(q: int, total: int, size: nat, r: int)
    requires 0 <= r < size
    ensures 0 <= q < total <==> 0 <= q * size + r < total * size
  {
    if 0 <= q < total {
      MulMonotone(0, q, size);
      MulMonotone(q + 1, total, size);
      assert (q + 1) * size == q * size + size;
    } else if q < 0 {
      MulMonotone(q, -1, size);
      assert -1 * size == 0 - size;
    } else {
      MulMonotone(total, q, size);
    }
  }

  /** An index q * size + r splits back into its block and its offset. */
  lemma SplitIndex(q: int, size: nat, r: int)
    requires 0 <= r < size
    ensures (q * size + r) / size == q && (q * size + r) % size == r
  {
    var x := q * size + r;
    var d := x / size - q;
    assert d * size == r - x % size;
    if d >= 1 {
      MulMonotone(1, d, size);
    } else if d <= -1 {
      MulMonotone(d, -1, size);
    }
  }

  lemma QuotientBounds(g: int, size: nat)
    requires 0 <= g && size > 0
    ensures 0 <= g / size <= g && g == (g / size) * size + g % size
  {
    var q, r := g / size, g % size;
    assert g == size * q + r;
    if q < 0 {
      MulMonotone(q, -1, size);
    } else {
      MulMonotone(1, size, q);
    }
  }
}
