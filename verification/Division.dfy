/**
 Quotient and remainder from their defining equation.
 */
module Division {

  lemma Quotient(q: int, r: int, m: int, x: int)
    requires 0 <= r < m && x == q * m + r
    ensures x / m == q && x % m == r
  {
    var d := q - x / m;
    assert d * m == x % m - r;
    NoMultiple(d, m);
  }

  /** The only multiple of m between -m and m is 0. */
  lemma NoMultiple(d: int, m: int)
    requires 0 < m && -m < d * m < m
    ensures d == 0
  {}
}
