/** Integer facts about row-major addressing and powers of two that the
    solver does not find on its own. */
module Arith {

  lemma MulAtLeast(k: int, n: int)
    requires k >= 1 && n >= 1
    ensures k * n >= n
  {
    assert k * n == (k - 1) * n + n;
  }

  /** Division and remainder are determined by any decomposition a == q*n + r. */
  lemma DivModUnique(a: int, n: int, q: int, r: int)
    requires n >= 1 && 0 <= r < n && a == q * n + r
    ensures a / n == q && a % n == r
  {
    var q', r' := a / n, a % n;
    assert a == q' * n + r';
    assert (q - q') * n == r' - r;
    var d := q - q';
    if d >= 1 {
      MulAtLeast(d, n);
      assert false;
    } else if d <= -1 {
      assert (-d) * n == -(d * n);
      MulAtLeast(-d, n);
      assert false;
    }
  }

  lemma ModSmall(x: int, n: int)
    requires 0 <= x < n
    ensures x % n == x && x / n == 0
  {
    DivModUnique(x, n, 0, x);
  }

  lemma ModShift(x: int, n: int)
    requires n >= 1
    ensures (x + n) % n == x % n
  {
    DivModUnique(x + n, n, x / n + 1, x % n);
  }

  lemma PositiveFactor(a: int, n: int)
    requires n >= 1 && a * n > 0
    ensures a >= 1
  {
    if a <= 0 {
      assert false;
    }
  }

  /** k < m*n means k div n < m. */
  lemma DivBelow(k: int, n: int, m: int)
    requires n >= 1 && 0 <= k < m * n
    ensures 0 <= k / n < m
  {
    var q, r := k / n, k % n;
    assert k == q * n + r;
    assert m * n - q * n == (m - q) * n;
    PositiveFactor(m - q, n);
  }

  /** Row-major position of an in-range coordinate. */
  lemma IndexInBounds(w: int, h: int, x: int, y: int)
    requires 0 <= x < w && 0 <= y < h
    ensures 0 <= y * w + x < w * h
  {
    assert y * w <= (h - 1) * w by {
      assert (h - 1) * w - y * w == (h - 1 - y) * w;
    }
  }

  /** A cell on an earlier row, or on the same row and not to the right,
      comes no later in row-major order. */
  lemma RasterBefore(x: int, y: int, x': int, y': int, w: int)
    requires 0 <= x < w && 0 <= x' < w && (y' < y || (y' == y && x' <= x))
    ensures y' * w + x' <= y * w + x
  {
    if y' < y {
      assert (y - y' - 1) * w >= 0;
      assert y * w == y' * w + w + (y - y' - 1) * w;
    }
  }

  /** Row-major positions decode back to their coordinates. */
  lemma RowMajor(x: int, y: int, w: int)
    requires 0 <= x < w
    ensures (y * w + x) % w == x && (y * w + x) / w == y
  {
    DivModUnique(y * w + x, w, y, x);
  }

  function Pow2(n: nat): (r: nat)
    ensures r >= 1
  {
    if n == 0 then 1 else 2 * Pow2(n - 1)
  }

  function Max(a: int, b: int): int {
    if a >= b then a else b
  }

  function Min(a: int, b: int): int {
    if a <= b then a else b
  }
}
