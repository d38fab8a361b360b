/** The few nonlinear facts the block and byte arithmetic needs. */
module Arithmetic {
  lemma MultiplyMonotone(a: int, b: int, m: nat)
    ensures a <= b ==> a * m <= b * m
  {
  }

  lemma DivisionLaw(n: int, m: int)
    requires m > 0
    ensures n == (n / m) * m + n % m && 0 <= n % m < m
  {
  }

  /** A quotient and an in-range remainder are the quotient and the remainder. */
  lemma DivisionUnique(n: int, m: int, q: int, r: int)
    requires 0 <= r < m && n == q * m + r
    ensures n / m == q && n % m == r
  {
    var q', r' := n / m, n % m;
    DivisionLaw(n, m);
    assert (q' + 1) * m == q' * m + m && (q + 1) * m == q * m + m;
    MultiplyMonotone(q' + 1, q, m);
    MultiplyMonotone(q + 1, q', m);
  }
}
