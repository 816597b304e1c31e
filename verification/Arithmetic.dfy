/** Facts about products and quotients that the verifier needs one at a time. */
module Arithmetic {

  lemma MulMono(p: int, a: int, b: int)
    requires p >= 0 && a <= b
    ensures p * a <= p * b
  {
  }

  lemma Distribute(p: int, a: int, b: int)
    ensures p * (a + b) == p * a + p * b
  {
  }

  lemma Associate(a: int, b: int, c: int)
    ensures (a * b) * c == a * (b * c)
  {
  }

  /** Quotient and remainder are unique. */
  lemma DivModIs(x: int, p: int, q: int, r: int)
    requires p > 0 && x == p * q + r && 0 <= r < p
    ensures x / p == q && x % p == r
  {
    var d := x / p;
    assert x == p * d + x % p;
    if d < q {
      MulMono(p, d + 1, q);
      Distribute(p, d, 1);
    } else if d > q {
      MulMono(p, q + 1, d);
      Distribute(p, q, 1);
    }
  }

  lemma QuotientBelow(x: int, q: int, p: int)
    requires p > 0 && 0 <= x < p * q
    ensures 0 <= x / p < q
  {
    var h := x / p;
    assert p * h <= x < p * h + p;
    if h >= q {
      MulMono(p, q, h);
    } else if h < 0 {
      MulMono(p, h, -1);
    }
  }
}
