/** Facts about products and quotients that the solver needs to be told. */
module Arith {

  lemma MulBig(k: int, n: int)
    requires k != 0 && n > 0
    ensures k * n >= n || k * n <= -n
  {
  }

  lemma DivUnique(a: int, q: int, r: int, n: int)
    requires 0 <= r < n && a == q * n + r
    ensures a / n == q && a % n == r
  {
    var q', r' := a / n, a % n;
    assert (q - q') * n == r' - r;
    if q != q' { MulBig(q - q', n); }
  }
}
