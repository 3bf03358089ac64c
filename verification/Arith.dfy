/** Facts about products and quotients of variables. */
module Arith {

  lemma MulMono(a: int, b: int, c: nat)
    requires a <= b
    ensures a * c <= b * c
  {
  }

  /** A multiple lies between none and a larger one, whatever the sign. */
  lemma Between(k: nat, n: nat, d: int)
    requires k <= n
    ensures 0 <= d * k <= d * n || d * n <= d * k <= 0
  {
    assert d * n - d * k == d * (n - k);
  }

  lemma MulAtLeast(d: int, k: int)
    requires d > 0 && k >= 1
    ensures d * k >= d
  {
  }

  /** Quotient and remainder are the only numbers that can be. */
  lemma QuotientUnique(v: int, d: int, q: int, r: int)
    requires d > 0 && v == d * q + r && 0 <= r < d
    ensures v / d == q && v % d == r
  {
    var k := v / d - q;
    assert d * (v / d) == d * (q + k) == d * q + d * k;
    assert d * k == r - v % d;
    if k >= 1 {
      MulAtLeast(d, k);
    } else if k <= -1 {
      MulAtLeast(d, -k);
    }
  }
}
