/** Facts about products, quotients and remainders that the solver does not find alone. */
module Arithmetic {
  lemma CancelFactor(a: int, b: int, d: nat)
    requires a * d < b * d
    ensures a < b
  {
    assert a >= b ==> (a - b) * d >= 0;
  }

  /** Quotient and remainder are the only way to write `n` as `q * d + r` with `r < d`. */
  lemma DivModUnique(q: int, r: int, d: nat)
    requires 0 <= r < d
    ensures (q * d + r) / d == q
    ensures (q * d + r) % d == r
  {
    var n := q * d + r;
    assert n == n / d * d + n % d;
    assert (q + 1) * d == q * d + d && (n / d + 1) * d == n / d * d + d;
    CancelFactor(n / d, q + 1, d);
    CancelFactor(q, n / d + 1, d);
  }
}
