/**
 * Small facts of integer arithmetic that the calendar and the decimal
 * conversions both lean on.
 */
module Arith {

  /** The only multiple of k strictly between -k and k is 0 */
  lemma MulBound(k: int, t: int)
    requires 0 < k && -k < k * t < k
    ensures t == 0
  {
  }

  /** Quotient and remainder are the unique q, r with x == k * q + r and 0 <= r < k */
  lemma DivModUnique(x: int, k: int, q: int, r: int)
    requires 0 < k && 0 <= r < k && x == k * q + r
    ensures x / k == q && x % k == r
  {
    var q', r' := x / k, x % k;
    assert k * (q' - q) == r - r';
    MulBound(k, q' - q);
  }

  lemma MulTen(x: int, p: int)
    ensures x * (10 * p) == 10 * (x * p)
  {
  }
}
