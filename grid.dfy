/** Index arithmetic on row-major pixel grids, shared by the image utilities. */
module Grid {

  /** Cell (r, c) of a w-wide grid with h rows sits at a row-major index below w * h. */
  lemma RowMajorBound(r: int, c: int, w: int, h: int)
    requires 0 <= r < h && 0 <= c < w
    ensures 0 <= r * w + c < w * h
  {
    MulMonotone(r, h - 1, w);
    assert (h - 1) * w == h * w - w;
    assert w * h == h * w;
  }

  /** Row i of a w-wide grid starts one row's width after row i - 1. */
  lemma RowStep(i: int, w: int)
    ensures i * w == w + (i - 1) * w
  {
  }

  /** Multiplying by a positive factor keeps the order. */
  lemma MulMonotone(a: int, b: int, c: int)
    requires c > 0
    ensures a <= b ==> a * c <= b * c
    ensures a < b ==> a * c < b * c
  {
    var d := b - a;
    assert b * c == a * c + d * c;
    if d > 0 {
      assert d * c > 0;
    } else if d == 0 {
      assert d * c == 0;
    }
  }

  /** Nearest-neighbour sampling: destination row i of n rows reads source row i * m / n of m rows. */
  lemma ScaledIndexBound(i: int, n: int, m: int)
    requires 0 <= i < n && m > 0
    ensures 0 <= i * m / n < m
  {
    var p := i * m;
    var q := p / n;
    assert q * n <= p < q * n + n;
    MulMonotone(0, i, m);
    MulMonotone(i, n, m);
    MulMonotone(q, -1, n);
    MulMonotone(m, q, n);
    assert 0 * m <= p < n * m;
  }
}
