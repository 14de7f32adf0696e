/** The few facts about division that the models need, over arbitrary divisors. */
module Arith {
  lemma MulAtLeast(d: int, m: int)
    requires d >= 1 && m >= 0
    ensures d * m >= m
  {
  }

  lemma SubMul(a: int, b: int, m: int)
    ensures (a - b) * m == a * m - b * m
  {
  }

  /** Quotient and remainder are determined by their defining equation. */
  lemma DivModUnique(x: int, m: int, q: int, r: int)
    requires m > 0 && x == q * m + r && 0 <= r < m
    ensures x / m == q && x % m == r
  {
    var q', r' := x / m, x % m;
    assert x == q' * m + r';
    if q' < q {
      SubMul(q, q', m);
      MulAtLeast(q - q', m);
    } else if q' > q {
      SubMul(q', q, m);
      MulAtLeast(q' - q, m);
    }
  }

  lemma ModAddMultiple(a: int, q: int, m: int)
    requires m > 0
    ensures (a + q * m) % m == a % m && (a + q * m) / m == a / m + q
  {
    assert a + q * m == (a / m + q) * m + a % m by {
      assert a == (a / m) * m + a % m;
      SubMul(a / m, -q, m);
    }
    DivModUnique(a + q * m, m, a / m + q, a % m);
  }

  lemma ModAdd(a: int, b: int, m: int)
    requires m > 0
    ensures (a % m + b) % m == (a + b) % m
  {
    ModAddMultiple(a % m + b, a / m, m);
    assert a == (a / m) * m + a % m;
  }
}
