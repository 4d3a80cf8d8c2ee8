/** Quotients and remainders, by the equation that has only one solution. */
module Division {
  lemma Multiple(m: int, d: int)
    requires m > 0
    ensures d >= 1 ==> m * d >= m
    ensures d <= -1 ==> m * d <= -m
  {
  }

  lemma Distribute(m: int, a: int, b: int)
    ensures m * (a - b) == m * a - m * b
  {
  }

  /** A number is divided in one way only. */
  lemma Quotient(n: int, m: int, q: int, r: int)
    requires 0 <= r < m && n == m * q + r
    ensures n / m == q && n % m == r
  {
    Distribute(m, q, n / m);
    Multiple(m, q - n / m);
  }

  /** Adding a multiple of the divisor. */
  lemma Shift(n: int, m: int, k: int)
    requires m > 0
    ensures (n + m * k) / m == n / m + k && (n + m * k) % m == n % m
  {
    Distribute(m, n / m, -k);
    Opposite(m, k);
    Quotient(n + m * k, m, n / m + k, n % m);
  }

  lemma Opposite(m: int, k: int)
    ensures m * -k == -(m * k)
  {
  }
}
