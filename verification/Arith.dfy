/** Facts about quotients that the solver does not find by itself. */
module Arith {

  lemma MulMono(d: nat, a: int, b: int)
    requires a <= b
    ensures d * a <= d * b
  {
    assert d * (b - a) >= 0;
  }

  /** A quotient and a remainder determine each other. */
  lemma QuotientIs(n: int, d: nat, q: int, r: nat)
    requires n == d * q + r && r < d
    ensures n / d == q && n % d == r
  {
    var q', r' := n / d, n % d;
    assert n == d * q' + r' && 0 <= r' < d;
    if q' < q {
      MulMono(d, q' + 1, q);
    } else if q < q' {
      MulMono(d, q + 1, q');
    }
  }

  lemma QuotientSteps(n: nat, d: nat)
    requires d > 0
    ensures n / d <= (n + 1) / d <= n / d + 1
  {
    var q, r := n / d, n % d;
    if r + 1 < d {
      QuotientIs(n + 1, d, q, r + 1);
    } else {
      QuotientIs(n + 1, d, q + 1, 0);
    }
  }

  lemma QuotientBound(n: nat, d: nat, m: nat)
    requires d > 0 && n < d * m
    ensures n / d < m
  {
    if m <= n / d {
      MulMono(d, m, n / d);
    }
  }
}
