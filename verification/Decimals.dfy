/**
 * Decimals with eighteen places (LegacyDec), as their scaled integers. The bit-length panics of the
 * library are not modelled.
 */
module Decimals {
  import opened Arith

  const UNIT: int := 1_000_000_000_000_000_000

  type Dec = int

  /** Division of big integers, towards zero. */
  function Quo(a: int, b: int): int
    requires b > 0
  {
    if a >= 0 then a / b else -((-a) / b)
  }

  function FromInt(n: int): Dec {
    n * UNIT
  }

  function TruncateInt(d: Dec): int {
    Quo(d, UNIT)
  }

  /** Rounds to the nearest integer, halves to even. */
  function ChopPrecisionAndRound(x: int): Dec
    decreases x < 0
  {
    if x < 0 then -ChopPrecisionAndRound(-x)
    else
      var quo, rem := x / UNIT, x % UNIT;
      if rem == 0 || rem < UNIT / 2 then quo
      else if rem > UNIT / 2 then quo + 1
      else if quo % 2 == 0 then quo
      else quo + 1
  }

  function Mul(a: Dec, b: Dec): Dec {
    ChopPrecisionAndRound(a * b)
  }

  /** Ceil followed by RoundInt. */
  function CeilInt(d: Dec): int {
    -((-d) / UNIT)
  }

  function Max(a: Dec, b: Dec): Dec {
    if a >= b then a else b
  }

  function Min(a: Dec, b: Dec): Dec {
    if a <= b then a else b
  }

  // ---------- facts about division ----------

  lemma MulMono(a: int, b: int, m: int)
    requires a <= b && m >= 0
    ensures a * m <= b * m
  {
  }

  /** The quotient is the greatest whose multiple fits. */
  lemma QuotientFits(x: int, m: int, q: int)
    requires m > 0
    ensures q <= x / m <==> q * m <= x
  {
    assert x == (x / m) * m + x % m;
    if q <= x / m {
      MulMono(q, x / m, m);
    } else {
      MulMono(x / m + 1, q, m);
      SubMul(x / m, -1, m);
    }
  }

  lemma DivMono(x: int, y: int, m: int)
    requires m > 0 && x <= y
    ensures x / m <= y / m
  {
    QuotientFits(x, m, x / m);
    QuotientFits(y, m, x / m);
  }

  lemma DivDiv(x: int, a: int, b: int)
    requires a > 0 && b > 0
    ensures a * b > 0 && x / a / b == x / (a * b)
  {
    MulAtLeast(a, b);
    var q, p := x / a / b, x / (a * b);
    QuotientFits(x / a, b, q);
    QuotientFits(x, a, q * b);
    assert q * b * a == q * (a * b);
    QuotientFits(x, a * b, q);
    QuotientFits(x, a * b, p);
    assert p * b * a == p * (a * b);
    QuotientFits(x, a, p * b);
    QuotientFits(x / a, b, p);
  }

  /** A product with a whole number is exact. */
  lemma MulWhole(n: int, d: Dec)
    ensures Mul(FromInt(n), d) == n * d
  {
    assert FromInt(n) * d == (n * d) * UNIT;
    ChopExact(n * d);
  }

  lemma ChopExact(k: int)
    ensures ChopPrecisionAndRound(k * UNIT) == k
  {
    var x := if k * UNIT < 0 then -k else k;
    ModAddMultiple(0, x, UNIT);
    assert (0 + x * UNIT) == x * UNIT;
  }

  lemma WholeTruncates(n: int, rest: int)
    requires 0 <= rest < UNIT
    ensures (n * UNIT + rest) / UNIT == n
  {
    DivModUnique(n * UNIT + rest, UNIT, n, rest);
  }
}
