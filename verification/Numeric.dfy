/** Minimum, maximum and clamping as the rate controller uses them, fixed-width integer
    conversions, and the few facts about real division the buffer models rest on. */
module Numeric {

  function MinInt(a: int, b: int): int { if a < b then a else b }

  function MaxInt(a: int, b: int): int { if a > b then a else b }

  function MinReal(a: real, b: real): real { if a < b then a else b }

  function MaxReal(a: real, b: real): real { if a > b then a else b }

  /** `mfx::clamp`: the upper bound wins when the bounds cross. */
  function Clamp(v: int, lo: int, hi: int): int { MinInt(hi, MaxInt(v, lo)) }

  function ClampReal(v: real, lo: real, hi: real): real { MinReal(hi, MaxReal(v, lo)) }

  /** Wrap-around to an unsigned 32-bit word. */
  function U32(x: int): nat { x % 0x1_0000_0000 }

  /** Reinterpretation of an unsigned 32-bit word as a signed one. */
  function I32(x: nat): int { if x < 0x8000_0000 then x else x - 0x1_0000_0000 }

  /** C integer shift by one of a possibly negative value: floor division. */
  function Half(x: int): int { x / 2 }

  /** Real division, characterised by multiplication. */
  function Quotient(a: real, b: real): (q: real)
    requires b > 0.0
    ensures q * b == a
  {
    a / b
  }

  /** Comparing a quotient with a number is comparing the dividend with a product. */
  lemma QuotientOrder(a: real, b: real, c: real)
    requires b > 0.0
    ensures Quotient(a, b) <= c <==> a <= c * b
    ensures Quotient(a, b) < c <==> a < c * b
  {
    ScaledOrder(Quotient(a, b), c, b);
  }

  lemma ScaledOrder(q: real, c: real, b: real)
    requires b > 0.0
    ensures q <= c <==> q * b <= c * b
    ensures q < c <==> q * b < c * b
  {
    if q < c { MultiplyLess(q, c, b); }
    if c < q { MultiplyLess(c, q, b); }
  }

  /** Truncating a non-negative quotient gives the largest integer whose multiple still fits. */
  lemma FloorOfQuotient(a: real, b: real)
    requires a >= 0.0 && b > 0.0
    ensures var q := Quotient(a, b).Floor;
            0 <= q && q as real * b <= a < (q as real + 1.0) * b
  {
    var q := Quotient(a, b).Floor;
    QuotientOrder(a, b, 0.0);
    QuotientOrder(a, b, q as real);
    QuotientOrder(a, b, q as real + 1.0);
  }

  lemma MultiplyLess(a: real, b: real, k: real)
    requires a < b && k > 0.0
    ensures a * k < b * k
  {
    assert (b - a) * k > 0.0;
  }

  lemma MultiplyAtMost(a: real, b: real, k: real)
    requires a <= b && k >= 0.0
    ensures a * k <= b * k
  {
    assert (b - a) * k >= 0.0;
  }

  lemma DistributeInt(x: int, y: int, b: int)
    ensures (x + y) * b == x * b + y * b
  {
  }

  lemma MultipleAtLeast(d: int, b: nat)
    requires d >= 1
    ensures d * b >= b
  {
  }

  lemma DivModUnique(x: int, b: nat, q: int, r: nat)
    requires b > 0
    requires x == q * b + r && r < b
    ensures x / b == q && x % b == r
  {
    var p := x / b;
    if p > q {
      MultipleAtLeast(p - q, b);
      DistributeInt(p - q, q, b);
    } else if p < q {
      MultipleAtLeast(q - p, b);
      DistributeInt(q - p, p, b);
    }
  }
}
