/** Integer facts about flat tensor indices that the solver does not find
    on its own (they involve products of two variables). */
module IndexMath {

  lemma MulAtLeast(m: int, d: int)
    requires m >= 1 && d > 0
    ensures m * d >= d
  {
    assert m * d == (m - 1) * d + d;
  }

  /** Euclidean division has exactly one quotient and remainder. */
  lemma DivModUnique(k: int, q: int, r: int, d: int)
    requires d > 0 && 0 <= r < d && k == q * d + r
    ensures k / d == q && k % d == r
  {
    var q', r' := k / d, k % d;
    assert (q - q') * d == r' - r;
    if q - q' >= 1 {
      MulAtLeast(q - q', d);
    } else if q' - q >= 1 {
      MulAtLeast(q' - q, d);
    }
    assert q == q';
  }

  /** Row-major position (y, x) in an h-by-w grid lies inside the grid. */
  lemma RowMajorBound(y: int, x: int, h: int, w: int)
    requires 0 <= y < h && 0 <= x < w
    ensures 0 <= y * w + x < h * w
  {
    assert y * w + x < (y + 1) * w;
    assert (y + 1) * w <= h * w by {
      assert h * w - (y + 1) * w == (h - y - 1) * w;
    }
  }

  /** An index below a*b, divided by b, is below a. */
  lemma DivBelow(i: int, a: int, b: int)
    requires b > 0 && 0 <= i < b * a
    ensures 0 <= i / b < a
  {
    DivModUnique(i, i / b, i % b, b);
  }

  /** k is its quotient times d plus its remainder. */
  lemma Decompose(k: int, d: int)
    requires d > 0
    ensures k == (k / d) * d + k % d && 0 <= k % d < d
  {
  }
}
