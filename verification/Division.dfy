/** Quotient and remainder by a variable. */
module Division {

  lemma NotNegative(a: int, b: int)
    requires a >= 0 && b >= 0
    ensures a * b >= 0
  {
  }

  lemma AtLeastOnce(a: int, m: int)
    requires a >= 1 && m >= 0
    ensures a * m >= m
  {
    assert a * m == m + (a - 1) * m;
    NotNegative(a - 1, m);
  }

  /** A number written as `q * m + r` has quotient `q` and remainder `r`. */
  lemma DivMod(n: int, q: int, m: int, r: int)
    requires m > 0 && n == q * m + r && 0 <= r < m
    ensures n / m == q && n % m == r
  {
    var p := n / m;
    assert n == p * m + n % m;
    if p < q {
      assert (q - p) * m == q * m - p * m;
      AtLeastOnce(q - p, m);
    } else if q < p {
      assert (p - q) * m == p * m - q * m;
      AtLeastOnce(p - q, m);
    }
  }
}
