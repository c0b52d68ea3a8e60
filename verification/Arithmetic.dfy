/** Multiplication and division steps that the solver does not find by itself. */
module Arithmetic {

  lemma OneMoreTime(n: int, d: int)
    ensures n * d == (n - 1) * d + d
  {
  }

  lemma OneMoreTimeFits(m: int, n: int, d: int, before: int, after: int)
    requires n == m + 1 && m * d <= after && after + d <= before
    ensures n * d <= before
  {
    OneMoreTime(n, d);
  }

  lemma Times(m: int, n: int, d: int)
    requires d > 0
    ensures m <= n ==> m * d <= n * d
  {
  }

  lemma DivideBy(n: int, d: int, t: int)
    requires d > 0 && n * d <= t
    ensures n <= t / d
  {
    Times(t / d + 1, n, d);
  }

  lemma QuotientExceeds(k: nat, d: nat)
    requires d > 0
    ensures (k / d + 1) * d > k
  {
  }
}
