/** Bytes, and the division facts that the solver does not find by itself. */
module Basics {

  type Byte = b: int | 0 <= b < 256

  lemma MulMonotone(p: int, q: int, b: nat)
    requires p <= q
    ensures p * b <= q * b
  {
    assert (q - p) * b >= 0;
  }

  lemma MulGap(n: nat, d: int)
    ensures d >= 1 ==> n * d >= n
    ensures d <= -1 ==> n * d + n <= 0
  {
  }

  /** Quotient and remainder are the only ones. */
  lemma DivUnique(x: nat, n: nat, q: nat, r: nat)
    requires x == n * q + r && r < n
    ensures x % n == r && x / n == q
  {
    MulGap(n, x / n - q);
    assert n * (x / n - q) == n * (x / n) - n * q;
    assert x == n * (x / n) + x % n;
  }

  lemma DivOfMultiple(q: nat, r: nat, b: nat)
    requires r < b
    ensures (q * b + r) / b == q && (q * b + r) % b == r
  {
    DivUnique(q * b + r, b, q, r);
  }

  lemma DivMonotone(n: nat, m: nat, b: nat)
    requires n <= m && b > 0
    ensures n / b <= m / b
  {
    if n / b > m / b {
      MulMonotone(m / b + 1, n / b, b);
    }
  }

  lemma DivAtMost(n: nat, d: nat)
    requires d > 0
    ensures n / d <= n
  {
    if n / d > n {
      MulMonotone(1, d, n / d);
    }
  }

  /** Sums and differences of multiples are multiples. */
  lemma ModOfSum(a: nat, m: nat, b: nat)
    requires b > 0 && m % b == 0
    ensures (a + m) % b == a % b
  {
    var q := a / b + m / b;
    assert a + m == b * q + a % b;
    DivUnique(a + m, b, q, a % b);
  }
}
