/** Facts about truncating integer division used by the progress percentages. */
module Arith {
  lemma MulLe(n: int, a: int, b: int)
    requires n > 0 && a <= b
    ensures n * a <= n * b
  {
    assert n * b - n * a == n * (b - a);
  }

  /** Truncating division by a positive number keeps order. */
  lemma DivMonotone(x: int, y: int, n: int)
    requires 0 <= x <= y && n > 0
    ensures x / n <= y / n
  {
    var q1, q2 := x / n, y / n;
    assert x == n * q1 + x % n && y == n * q2 + y % n;
    if q1 > q2 {
      MulLe(n, q2 + 1, q1);
    }
  }

  lemma DivExact(k: int, n: int)
    requires n > 0
    ensures n * k / n == k
  {
    var q := n * k / n;
    assert n * k == n * q + (n * k) % n;
    if q > k {
      MulLe(n, k + 1, q);
    } else if q < k {
      MulLe(n, q + 1, k);
    }
  }

  /** A share `c` of `n` scaled to `f` stays within 0 and `f`, and grows with `c`. */
  lemma ScaledShare(c: nat, d: nat, n: nat, f: nat)
    requires c <= d <= n && n > 0
    ensures 0 <= c * f / n <= d * f / n <= f
  {
    if f > 0 {
      MulLe(f, c, d);
      MulLe(f, d, n);
    }
    DivMonotone(c * f, d * f, n);
    DivMonotone(d * f, n * f, n);
    DivExact(f, n);
  }
}
