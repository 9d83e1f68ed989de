/** What several of the other modules need: optional values, and quotient and remainder. */
module Basics {

  datatype Option<T> = None | Some(value: T)

  lemma Distribute(m: int, p: int, q: int)
    ensures m * p + m * q == m * (p + q)
  {
  }

  lemma NoMultiple(m: int, d: int)
    requires m > 0 && d != 0
    ensures m * d >= m || m * d + m <= 0
  {
  }

  /** Quotient and remainder are the only numbers that divide. */
  lemma Division(a: int, m: int, q: int, r: int)
    requires m > 0 && a == m * q + r && 0 <= r < m
    ensures a / m == q && a % m == r
  {
    var d := a / m - q;
    assert m * (a / m) + a % m == m * q + r;
    Distribute(m, a / m, -q);
    assert m * d == r - a % m;
    if d != 0 { NoMultiple(m, d); }
  }
}
