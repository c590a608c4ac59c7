/** The two integer quotients of the solvers, built on C++ division that truncates toward zero. */
module WideInteger {

  function TruncatedQuotient(n: int, d: int): int
    requires d > 0
  {
    if n >= 0 then n / d else -(-n / d)
  }

  function TruncatedRemainder(n: int, d: int): int
    requires d > 0
  {
    n - TruncatedQuotient(n, d) * d
  }

  /** Largest integer not above n / d. */
  function FloorDiv(n: int, d: int): (q: int)
    requires d > 0
    ensures 0 <= n - q * d < d
  {
    var quotient := TruncatedQuotient(n, d);
    var remainder := TruncatedRemainder(n, d);
    assert (quotient - 1) * d == quotient * d - d;
    if remainder != 0 && n < 0 then quotient - 1 else quotient
  }

  /** Nearest integer to n / d, the smaller one on a tie. */
  function RoundedDiv(n: int, d: int): (q: int)
    requires d > 0
    ensures -d < 2 * (n - q * d) <= d
  {
    var quotient := TruncatedQuotient(n, d);
    var remainder := TruncatedRemainder(n, d);
    assert (quotient - 1) * d == quotient * d - d && (quotient + 1) * d == quotient * d + d;
    var (q, r) := if remainder < 0 then (quotient - 1, remainder + d) else (quotient, remainder);
    if r * 2 > d then q + 1 else q
  }

  lemma StrictProducts(a: int, b: int, m: int)
    requires m > 0
    ensures a < b ==> a * m <= b * m - m
  {
    if a < b {
      assert a * m <= (b - 1) * m;
    }
  }

  lemma WeakProducts(a: int, b: int, m: int)
    requires m >= 0
    ensures a <= b ==> a * m <= b * m
  {
  }
}
