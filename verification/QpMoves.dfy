/** How the controller moves a QP: away from a frame size that missed its target, towards the buffer
    level it wants, and between the QP scales of the frame types. */
module QpMoves {
  import opened Numeric
  import opened QpTable

  // ----- after a frame missed its target -----

  /** `pow(total / target, exponent)`. Of the function itself only the order facts in `IsPower` are used. */
  type Power = (real, real, real) -> real

  /** With a positive exponent the power is at least one exactly when the ratio is. */
  ghost predicate IsPower(power: Power) {
    forall total, target, exponent :: total >= 0.0 && target >= 0.0 && exponent > 0.0 ==>
      && power(total, target, exponent) >= 0.0
      && (power(total, target, exponent) >= 1.0 <==> total >= target)
  }

  function ScaledStep(power: Power, total: real, target: real, qp: int, offset: int, exponent: real): real
    requires IsOffset(offset) && 0 <= qp
  {
    QP2Qstep(qp, offset) * power(total, target, exponent)
  }

  /** What `pow` is beyond its order: linear in the ratio at exponent one, and exponents add up. */
  ghost predicate HasExponents(power: Power) {
    && (forall total, target :: total >= 0.0 && target > 0.0 ==> power(total, target, 1.0) * target == total)
    && (forall total, target, a, b :: total >= 0.0 && target > 0.0 && a > 0.0 && b > 0.0 ==>
          power(total, target, a + b) == power(total, target, a) * power(total, target, b))
  }

  /** How the step scales: at exponent one with the miss itself, so that the step times the target is the old step times
      the size; at one half its square does; and any two exponents compose. */
  lemma StepScales(power: Power, total: real, target: real, qp: int, offset: int, a: real, b: real)
    requires IsOffset(offset) && 0 <= qp && HasExponents(power)
    requires total >= 0.0 && target > 0.0 && a > 0.0 && b > 0.0
    ensures ScaledStep(power, total, target, qp, offset, 1.0) * target == QP2Qstep(qp, offset) * total
    ensures var half := ScaledStep(power, total, target, qp, offset, 0.5);
            half * half * target == QP2Qstep(qp, offset) * QP2Qstep(qp, offset) * total
    ensures ScaledStep(power, total, target, qp, offset, a + b)
         == ScaledStep(power, total, target, qp, offset, a) * power(total, target, b)
  {
    hide QP2Qstep, HasExponents;
    var step, half := QP2Qstep(qp, offset), power(total, target, 0.5);
    ExponentsOf(power, total, target, a, b);
    ScaledByOne(step, power(total, target, 1.0), target, total);
    ScaledByHalf(step, half, target, total);
    ThreeFactors(step, power(total, target, a), power(total, target, b));
  }

  lemma ExponentsOf(power: Power, total: real, target: real, a: real, b: real)
    requires HasExponents(power) && total >= 0.0 && target > 0.0 && a > 0.0 && b > 0.0
    ensures power(total, target, 1.0) * target == total
    ensures (power(total, target, 0.5) * power(total, target, 0.5)) * target == total
    ensures power(total, target, a + b) == power(total, target, a) * power(total, target, b)
  {
    assert power(total, target, 0.5 + 0.5) == power(total, target, 0.5) * power(total, target, 0.5);
  }

  lemma ThreeFactors(x: real, y: real, z: real)
    ensures (x * y) * z == x * (y * z)
  {
  }

  lemma ScaledByOne(step: real, one: real, target: real, total: real)
    requires one * target == total
    ensures (step * one) * target == step * total
  {
    ThreeFactors(step, one, target);
  }

  lemma ScaledByHalf(step: real, half: real, target: real, total: real)
    requires (half * half) * target == total
    ensures (step * half) * (step * half) * target == step * step * total
  {
    var square := half * half;
    assert (step * half) * (step * half) == (step * step) * square;
    ThreeFactors(step * step, square, target);
  }

  function GetNewQP(
    power: Power, total: real, target: real, minQP: int, maxQP: int, qp: int, offset: int,
    exponent: real, strict: bool, limited: bool): int
    requires IsOffset(offset) && 0 <= qp
  {
    var found := Qstep2QP(ScaledStep(power, total, target, qp, offset, exponent), offset);
    if total < target then
      if qp <= minQP then qp
      else
        var lim := if limited then MaxInt(found, Half(minQP + qp + 1)) else found;
        var str := if strict then MinInt(lim, qp - 1) else lim;
        Clamp(str, minQP, maxQP)
    else
      if qp >= maxQP then qp
      else
        var lim := if limited then MinInt(found, Half(maxQP + qp + 1)) else found;
        var str := if strict then MaxInt(lim, qp + 1) else lim;
        Clamp(str, minQP, maxQP)
  }

  /** The table search moves in the direction of the miss. */
  lemma SearchMovesTheRightWay(power: Power, total: real, target: real, qp: int, offset: int, exponent: real)
    requires IsOffset(offset) && 0 <= qp <= 51 + offset
    requires IsPower(power) && total >= 0.0 && target >= 0.0 && exponent > 0.0
    ensures var found := Qstep2QP(ScaledStep(power, total, target, qp, offset, exponent), offset);
            if total < target then found <= qp else found >= qp
  {
    hide Qstep, Qstep2QP, ScaledStep;
    SearchInvertsTable(qp, offset);
    var step, scaled := QP2Qstep(qp, offset), ScaledStep(power, total, target, qp, offset, exponent);
    ScaledStepOrder(power, total, target, qp, offset, exponent);
    if total < target {
      SearchIsMonotone(scaled, step, offset);
    } else {
      SearchIsMonotone(step, scaled, offset);
    }
  }

  lemma ScaledStepOrder(power: Power, total: real, target: real, qp: int, offset: int, exponent: real)
    requires IsOffset(offset) && 0 <= qp
    requires IsPower(power) && total >= 0.0 && target >= 0.0 && exponent > 0.0
    ensures var step, scaled := QP2Qstep(qp, offset), ScaledStep(power, total, target, qp, offset, exponent);
            if total < target then scaled <= step else scaled >= step
  {
    hide QP2Qstep;
    StepIsPositive(qp, offset);
    var step, factor := QP2Qstep(qp, offset), power(total, target, exponent);
    if total < target {
      MultiplyAtMost(factor, 1.0, step);
    } else {
      MultiplyAtMost(1.0, factor, step);
    }
  }

  lemma StepIsPositive(qp: int, offset: int)
    requires IsOffset(offset) && 0 <= qp
    ensures QP2Qstep(qp, offset) > 0.0
  {
    hide Qstep;
    var r := MinInt(51 + offset, qp);
    if r < TABLE_SIZE - 1 {
      NeighboursIncrease(r);
    } else {
      NeighboursIncrease(r - 1);
    }
  }

  /** From a QP inside the limits the new QP stays inside them, never moves the wrong way, moves by at least
      one under `strict` unless already at the limit, and under `limited` covers at most half of the
      remaining range, rounded up to at least one step. */
  lemma NewQPIsDirected(
    power: Power, total: real, target: real, minQP: int, maxQP: int, qp: int, offset: int,
    exponent: real, strict: bool, limited: bool)
    requires IsOffset(offset) && 0 <= minQP <= qp <= maxQP <= 51 + offset
    requires IsPower(power) && total >= 0.0 && target >= 0.0 && exponent > 0.0
    ensures var qpNew := GetNewQP(power, total, target, minQP, maxQP, qp, offset, exponent, strict, limited);
            && minQP <= qpNew <= maxQP
            && (total < target ==> qpNew <= qp)
            && (total >= target ==> qpNew >= qp)
            && (strict && total < target && qp > minQP ==> qpNew <= qp - 1)
            && (strict && total >= target && qp < maxQP ==> qpNew >= qp + 1)
            && (limited && total < target ==> qp - qpNew <= MaxInt(1, Half(qp - minQP)))
            && (limited && total >= target ==> qpNew - qp <= MaxInt(1, Half(maxQP - qp + 1)))
  {
    hide Qstep2QP, QP2Qstep;
    SearchMovesTheRightWay(power, total, target, qp, offset, exponent);
  }

  /** What the recode requests rely on, whatever the power function and wherever `qp` stands. */
  lemma NewQPForRequests(
    power: Power, total: real, target: real, minQP: int, maxQP: int, qp: int, offset: int,
    exponent: real, strict: bool, limited: bool)
    requires IsOffset(offset) && 0 <= qp && minQP <= maxQP
    ensures var qpNew := GetNewQP(power, total, target, minQP, maxQP, qp, offset, exponent, strict, limited);
            && (qpNew == qp || minQP <= qpNew <= maxQP)
            && (strict && total < target && qp > minQP ==> qpNew <= qp - 1)
            && (strict && total >= target && qp < maxQP ==> qpNew >= qp + 1)
            && (total < target && qp <= minQP ==> qpNew == qp)
            && (total >= target && qp >= maxQP ==> qpNew == qp)
  {
    hide Qstep2QP, ScaledStep;
  }

  /** Under `strict` the new QP never lies on the wrong side of the old one, even between crossed limits. */
  lemma NewQPIsStrict(
    power: Power, total: real, target: real, minQP: int, maxQP: int, qp: int, offset: int,
    exponent: real, limited: bool)
    requires IsOffset(offset) && 0 <= qp
    ensures var qpNew := GetNewQP(power, total, target, minQP, maxQP, qp, offset, exponent, true, limited);
            if total < target then qpNew <= qp else qpNew >= qp
  {
    hide Qstep2QP, ScaledStep;
  }

  /** Towards a bigger target the new QP stays inside the limits without assuming that `qp` starts there,
      unless it is already past the limit it would have to cross. */
  lemma NewQPStaysInLimits(
    power: Power, total: real, target: real, minQP: int, maxQP: int, qp: int, offset: int,
    exponent: real, strict: bool, limited: bool)
    requires IsOffset(offset) && 0 <= qp && minQP <= maxQP
    ensures var qpNew := GetNewQP(power, total, target, minQP, maxQP, qp, offset, exponent, strict, limited);
            minQP <= qpNew <= maxQP
            <==> !(total < target && qp < minQP) && !(total >= target && qp > maxQP)
  {
    hide Qstep2QP, QP2Qstep;
  }

  /** The QPs `GetNewQP` may choose from: inside the limits and on the right side of `qp`, at least one step away
      under `strict`, and under `limited` at most halfway to the limit. Halfway is rounded up on the way up; on the
      way down it is rounded down, so that without `strict` the last step to the minimum is never taken. */
  predicate Permitted(q: int, bigger: bool, minQP: int, maxQP: int, qp: int, strict: bool, limited: bool) {
    && minQP <= q <= maxQP
    && (if bigger
        then (if strict then qp < q else qp <= q) && (limited ==> q - qp <= Half(maxQP - qp + 1))
        else (if strict then q < qp else q <= qp)
             && (limited ==> qp - q <= if strict then MaxInt(1, Half(qp - minQP)) else Half(qp - minQP)))
  }

  /** Between its limits `GetNewQP` takes, of all permitted QPs, the one nearest to what the table search asks for. */
  lemma NewQPIsNearestPermitted(
    power: Power, total: real, target: real, minQP: int, maxQP: int, qp: int, offset: int,
    exponent: real, strict: bool, limited: bool, other: int)
    requires IsOffset(offset) && 0 <= minQP <= qp <= maxQP <= 51 + offset
    requires IsPower(power) && total >= 0.0 && target >= 0.0 && exponent > 0.0
    requires if total < target then minQP < qp else qp < maxQP
    ensures var qpNew := GetNewQP(power, total, target, minQP, maxQP, qp, offset, exponent, strict, limited);
            var found := Qstep2QP(ScaledStep(power, total, target, qp, offset, exponent), offset);
            && Permitted(qpNew, total >= target, minQP, maxQP, qp, strict, limited)
            && (Permitted(other, total >= target, minQP, maxQP, qp, strict, limited) ==>
                  Apart(qpNew, found) <= Apart(other, found))
  {
    hide Qstep2QP, QP2Qstep;
    SearchMovesTheRightWay(power, total, target, qp, offset, exponent);
  }

  function Apart(a: int, b: int): nat { if a < b then b - a else a - b }

  // ----- towards the wanted buffer level -----

  /** `overshoot` is the buffer's deviation in [-1, 1], positive when too many bits were spent;
      `dequant` is the running average of 1 / QP. */
  function GetNewQPTotal(
    overshoot: real, dequant: real, minQP: int, maxQP: int, qp: int, pyramid: bool, sceneChange: bool): int
    requires 0 < minQP <= maxQP
  {
    Clamp(Slew(WantedQP(overshoot, dequant, minQP, maxQP), qp, pyramid, sceneChange), minQP, maxQP)
  }

  function WantedQP(overshoot: real, dequant: real, minQP: int, maxQP: int): int
    requires 0 < minQP <= maxQP
  {
    var lo, hi := Quotient(1.0, maxQP as real), Quotient(1.0, minQP as real);
    var bo := ClampReal(overshoot, -1.0, 1.0);
    var d := ClampReal(dequant, lo, hi);
    var nd := ClampReal(Blend(d, lo, bo), lo, hi);
    ReciprocalOrder(minQP as real, maxQP as real);
    InverseRounded(nd)
  }

  /** From `d` towards `lo` by the fraction `b`. */
  function Blend(d: real, lo: real, b: real): real { d + (lo - d) * b }

  function InverseRounded(nd: real): int
    requires nd > 0.0
  {
    (Quotient(1.0, nd) + 0.5).Floor
  }

  function Slew(wanted: int, qp: int, pyramid: bool, sceneChange: bool): int {
    if sceneChange then Clamp(wanted, qp - 5, qp + 5)
    else if pyramid then
      if wanted >= qp + 5 then qp + 2
      else if wanted > qp + 1 then qp + 1
      else if wanted <= qp - 5 then qp - 2
      else if wanted < qp - 1 then qp - 1
      else wanted
    else
      if wanted >= qp + 5 then qp + 3
      else if wanted > qp + 2 then qp + 2
      else if wanted <= qp - 5 then qp - 3
      else if wanted < qp - 2 then qp - 2
      else wanted
  }

  /** A slew-limited move goes towards the wanted QP and never past it; a short way is gone at once and a long
      one at full slew. */
  lemma SlewMovesTowards(wanted: int, qp: int, pyramid: bool, sceneChange: bool)
    ensures var q := Slew(wanted, qp, pyramid, sceneChange);
            var (short, full) := if sceneChange then (5, 5) else if pyramid then (1, 2) else (2, 3);
            && (wanted > qp ==> qp < q <= wanted) && (wanted < qp ==> wanted <= q < qp)
            && (Apart(wanted, qp) <= short ==> q == wanted)
            && (short < Apart(wanted, qp) < 5 ==> Apart(q, qp) == short)
            && (Apart(wanted, qp) >= 5 ==> Apart(q, qp) == full)
  {
  }

  /** More overshoot never lowers the wanted QP. */
  lemma WantedQPIsMonotone(bo1: real, bo2: real, dequant: real, minQP: int, maxQP: int)
    requires 0 < minQP <= maxQP && bo1 <= bo2
    ensures WantedQP(bo1, dequant, minQP, maxQP) <= WantedQP(bo2, dequant, minQP, maxQP)
  {
    hide Quotient, InverseRounded, Blend;
    var lo, hi := Quotient(1.0, maxQP as real), Quotient(1.0, minQP as real);
    ReciprocalOrder(minQP as real, maxQP as real);
    var b1, b2 := ClampReal(bo1, -1.0, 1.0), ClampReal(bo2, -1.0, 1.0);
    var d := ClampReal(dequant, lo, hi);
    BlendOrder(d, lo, b1, b2);
    var n1, n2 := ClampReal(Blend(d, lo, b1), lo, hi), ClampReal(Blend(d, lo, b2), lo, hi);
    InverseRoundedOrder(n2, n1);
  }

  lemma BlendOrder(d: real, lo: real, b1: real, b2: real)
    requires lo <= d && b1 <= b2
    ensures Blend(d, lo, b2) <= Blend(d, lo, b1)
  {
    BlendMeaning(d, lo, b1);
    BlendMeaning(d, lo, b2);
    hide Blend;
    MultiplyAtMost(b1, b2, d - lo);
  }

  lemma BlendMeaning(d: real, lo: real, b: real)
    ensures Blend(d, lo, b) == d - b * (d - lo)
  {
  }

  lemma ReciprocalOrder(a: real, b: real)
    requires 0.0 < a <= b
    ensures 0.0 < Quotient(1.0, b) <= Quotient(1.0, a)
  {
    QuotientOrder(1.0, b, 0.0);
    QuotientOrder(1.0, a, 0.0);
    var q := Quotient(1.0, a);
    MultiplyAtMost(a, b, q);
    QuotientOrder(1.0, b, q);
  }

  lemma InverseRoundedOrder(n1: real, n2: real)
    requires 0.0 < n1 <= n2
    ensures InverseRounded(n2) <= InverseRounded(n1)
  {
    ReciprocalOrder(n1, n2);
  }

  /** More overshoot never lowers the new QP, which stays inside the limits and, from a QP inside them, moves
      by at most 5 on a scene change, 2 in a pyramid and 3 otherwise. */
  lemma NewQPTotalIsMonotoneAndSlewLimited(
    bo1: real, bo2: real, dequant: real, minQP: int, maxQP: int, qp: int, pyramid: bool, sceneChange: bool)
    requires 0 < minQP <= maxQP && bo1 <= bo2
    ensures var q1 := GetNewQPTotal(bo1, dequant, minQP, maxQP, qp, pyramid, sceneChange);
            var q2 := GetNewQPTotal(bo2, dequant, minQP, maxQP, qp, pyramid, sceneChange);
            var slew := if sceneChange then 5 else if pyramid then 2 else 3;
            && minQP <= q1 <= q2 <= maxQP
            && (minQP <= qp <= maxQP ==> qp - slew <= q1 && q2 <= qp + slew)
  {
    hide WantedQP;
    WantedQPIsMonotone(bo1, bo2, dequant, minQP, maxQP);
  }

  lemma WantedQPInLimits(overshoot: real, dequant: real, minQP: int, maxQP: int)
    requires 0 < minQP <= maxQP
    ensures minQP <= WantedQP(overshoot, dequant, minQP, maxQP) <= maxQP
  {
    hide Quotient, Blend;
    ReciprocalOrder(minQP as real, maxQP as real);
    var lo, hi := Quotient(1.0, maxQP as real), Quotient(1.0, minQP as real);
    var nd := ClampReal(Blend(ClampReal(dequant, lo, hi), lo, ClampReal(overshoot, -1.0, 1.0)), lo, hi);
    ReciprocalOrder(lo, nd);
    ReciprocalOrder(nd, hi);
    QuotientOrder(1.0, lo, maxQP as real);
    QuotientOrder(1.0, hi, minQP as real);
  }

  /** From a QP inside the limits the new QP is the slew-limited move; a QP outside them is brought back. */
  lemma NewQPTotalIsSlew(
    overshoot: real, dequant: real, minQP: int, maxQP: int, qp: int, pyramid: bool, sceneChange: bool)
    requires 0 < minQP <= maxQP
    ensures var q := GetNewQPTotal(overshoot, dequant, minQP, maxQP, qp, pyramid, sceneChange);
            var slewed := Slew(WantedQP(overshoot, dequant, minQP, maxQP), qp, pyramid, sceneChange);
            && (minQP <= qp <= maxQP ==> q == slewed)
            && (slewed < minQP ==> q == minQP) && (slewed > maxQP ==> q == maxQP)
            && (minQP <= slewed <= maxQP ==> q == slewed)
  {
    hide WantedQP, Slew;
    WantedQPInLimits(overshoot, dequant, minQP, maxQP);
    SlewMovesTowards(WantedQP(overshoot, dequant, minQP, maxQP), qp, pyramid, sceneChange);
  }

  /** The law behind the wanted QP: with `average` the QP whose reciprocal is the running average, an overshoot of `b`
      moves the reciprocal by that part of the way to the reciprocal of the largest QP, or as far beyond it if bits
      were saved. Multiplied out, with D the divider below, the wanted QP is average * maxQP / D rounded
      to nearest, and the smallest QP if that is below it. */
  lemma WantedQPLaw(b: real, average: real, minQP: int, maxQP: int)
    requires 0 < minQP <= maxQP && minQP as real <= average <= maxQP as real && -1.0 <= b <= 1.0
    ensures var q := WantedQP(b, Quotient(1.0, average), minQP, maxQP) as real;
            var D := Divider(b, average, maxQP);
            && 0.0 < D && average * maxQP as real <= maxQP as real * D
            && (average * maxQP as real < minQP as real * D ==> q == minQP as real)
            && (minQP as real * D <= average * maxQP as real ==>
                  (q - 0.5) * D <= average * maxQP as real < (q + 0.5) * D)
  {
    hide Quotient, InverseRounded, WantedQP, RawBlend, LimitedBlend, Divider;
    DividerMeaning(b, average, maxQP);
    WantedOfBlend(b, average, minQP, maxQP);
    LimitedInverse(Divider(b, average, maxQP), average * maxQP as real, RawBlend(b, average, maxQP), minQP, maxQP);
  }

  /** Between the largest QP, for no overshoot, and the average, for a full one, and beyond the former for bits
      saved. */
  function Divider(b: real, average: real, maxQP: int): real { (1.0 - b) * maxQP as real + b * average }

  lemma DividerMeaning(b: real, average: real, maxQP: int)
    requires 0.0 < average <= maxQP as real && -1.0 <= b <= 1.0
    ensures var D := Divider(b, average, maxQP);
            && 0.0 < D && average * maxQP as real <= maxQP as real * D && 0.0 < average * maxQP as real
            && RawBlend(b, average, maxQP) * (average * maxQP as real) == D
  {
    hide Quotient, Blend;
    DividerIsPositive(b, average, maxQP as real);
    BlendIsQuotient(b, average, maxQP as real);
  }

  function LimitedBlend(raw: real, minQP: int, maxQP: int): (r: real)
    requires 0 < minQP <= maxQP
    ensures 0.0 < r
  {
    ReciprocalOrder(minQP as real, maxQP as real);
    ClampReal(raw, Quotient(1.0, maxQP as real), Quotient(1.0, minQP as real))
  }

  /** The reciprocal of D / whole, limited and rounded. */
  lemma LimitedInverse(D: real, whole: real, raw: real, minQP: int, maxQP: int)
    requires 0 < minQP <= maxQP && 0.0 < D && 0.0 < whole && raw * whole == D && whole <= maxQP as real * D
    ensures var q := InverseRounded(LimitedBlend(raw, minQP, maxQP)) as real;
            && (whole < minQP as real * D ==> q == minQP as real)
            && (minQP as real * D <= whole ==> (q - 0.5) * D <= whole < (q + 0.5) * D)
  {
    hide Quotient, InverseRounded;
    ReciprocalOrder(minQP as real, maxQP as real);
    InverseRounds(D, whole, raw);
    LimitOfBlend(raw, D, whole, maxQP, Quotient(1.0, maxQP as real));
    LimitOfBlend(raw, D, whole, minQP, Quotient(1.0, minQP as real));
    InverseOfWhole(minQP, Quotient(1.0, minQP as real));
  }

  /** The reciprocal the wanted QP is taken from, before it is limited. */
  function RawBlend(b: real, average: real, maxQP: int): real
    requires 0.0 < average && 0 < maxQP
  {
    Blend(Quotient(1.0, average), Quotient(1.0, maxQP as real), b)
  }

  lemma WantedOfBlend(b: real, average: real, minQP: int, maxQP: int)
    requires 0 < minQP <= maxQP && minQP as real <= average <= maxQP as real && -1.0 <= b <= 1.0
    ensures WantedQP(b, Quotient(1.0, average), minQP, maxQP)
         == InverseRounded(LimitedBlend(RawBlend(b, average, maxQP), minQP, maxQP))
  {
    hide Quotient, InverseRounded, Blend;
    ReciprocalOrder(minQP as real, average);
    ReciprocalOrder(average, maxQP as real);
    ReciprocalOrder(minQP as real, maxQP as real);
  }

  lemma DividerIsPositive(b: real, average: real, most: real)
    requires 0.0 < average <= most && -1.0 <= b <= 1.0
    ensures var D := (1.0 - b) * most + b * average;
            0.0 < average <= D && average * most <= most * D && 0.0 < average * most
  {
    var D := (1.0 - b) * most + b * average;
    assert D == average + (1.0 - b) * (most - average);
    assert (1.0 - b) * (most - average) >= 0.0;
    assert most * D - average * most == most * (D - average);
    assert most * (D - average) >= 0.0 && average * most > 0.0;
  }

  lemma BlendIsQuotient(b: real, average: real, most: real)
    requires 0.0 < average && 0.0 < most
    ensures Blend(Quotient(1.0, average), Quotient(1.0, most), b) * (average * most) == (1.0 - b) * most + b * average
  {
    hide Quotient, Blend;
    BlendTimes(Quotient(1.0, average), Quotient(1.0, most), b, average, most);
  }

  lemma BlendTimes(d: real, lo: real, b: real, average: real, most: real)
    requires d * average == 1.0 && lo * most == 1.0
    ensures Blend(d, lo, b) * (average * most) == (1.0 - b) * most + b * average
  {
    UnitTimes(d, average, most);
    UnitTimes(lo, most, average);
    Combination(1.0 - b, d, b, lo, average * most);
    BlendMeaning(d, lo, b);
    hide Blend;
    assert (1.0 - b) * d + b * lo == d - b * (d - lo);
    assert average * most == most * average;
  }

  lemma UnitTimes(r: real, a: real, x: real)
    requires r * a == 1.0
    ensures r * (a * x) == x
  {
    var p := r * a;
    assert p * x == x;
    assert r * (a * x) == (r * a) * x;
  }

  lemma Combination(x: real, d: real, y: real, lo: real, w: real)
    ensures (x * d + y * lo) * w == x * (d * w) + y * (lo * w)
  {
  }

  /** Rounding the reciprocal of D / whole is rounding whole / D. */
  lemma InverseRounds(D: real, whole: real, raw: real)
    requires 0.0 < D && 0.0 < whole && raw * whole == D
    ensures 0.0 < raw
    ensures (InverseRounded(raw) as real - 0.5) * D <= whole < (InverseRounded(raw) as real + 0.5) * D
  {
    hide Quotient;
    ScaledOrder(0.0, raw, whole);
    InverseTimes(Quotient(1.0, raw), raw, whole, D);
    RoundedTimes(Quotient(1.0, raw), InverseRounded(raw), D, whole);
  }

  lemma InverseTimes(q: real, raw: real, whole: real, D: real)
    requires q * raw == 1.0 && raw * whole == D
    ensures q * D == whole
  {
    UnitTimes(q, raw, whole);
  }

  lemma RoundedTimes(q: real, rounded: int, D: real, whole: real)
    requires 0.0 < D && q * D == whole && rounded as real - 0.5 <= q < rounded as real + 0.5
    ensures (rounded as real - 0.5) * D <= whole < (rounded as real + 0.5) * D
  {
    TimesBetween(q, rounded as real - 0.5, rounded as real + 0.5, D, whole);
  }

  lemma TimesBetween(q: real, least: real, most: real, D: real, whole: real)
    requires 0.0 < D && q * D == whole && least <= q < most
    ensures least * D <= whole < most * D
  {
    ScaledOrder(least, q, D);
    ScaledOrder(q, most, D);
  }

  /** Comparing D / whole with the reciprocal of a limit is comparing the limit times D with `whole`. */
  lemma LimitOfBlend(raw: real, D: real, whole: real, limit: int, reciprocal: real)
    requires 0.0 < whole && raw * whole == D && 0 < limit && reciprocal * limit as real == 1.0
    ensures raw <= reciprocal <==> limit as real * D <= whole
    ensures raw < reciprocal <==> limit as real * D < whole
  {
    var l := limit as real;
    ScaledOrder(raw, reciprocal, l);
    ScaledOrder(raw * l, 1.0, whole);
    assert raw * l * whole == l * D by {
      ThreeFactors(l, raw, whole);
    }
  }

  lemma InverseOfWhole(n: int, reciprocal: real)
    requires 0 < n && reciprocal * n as real == 1.0 && 0.0 < reciprocal
    ensures InverseRounded(reciprocal) == n
  {
    hide Quotient;
    QuotientOrder(1.0, reciprocal, n as real);
  }

  /** An overshoot beyond one is one, and an average beyond the limits is the limit. */
  lemma WantedQPClamps(overshoot: real, average: real, minQP: int, maxQP: int)
    requires 0 < minQP <= maxQP && 0.0 < average
    ensures var b, a := ClampReal(overshoot, -1.0, 1.0), ClampReal(average, minQP as real, maxQP as real);
            WantedQP(overshoot, Quotient(1.0, average), minQP, maxQP) == WantedQP(b, Quotient(1.0, a), minQP, maxQP)
  {
    hide Quotient, InverseRounded, Blend;
    ReciprocalOrder(minQP as real, maxQP as real);
    if average < minQP as real {
      ReciprocalOrder(average, minQP as real);
    } else if average > maxQP as real {
      ReciprocalOrder(maxQP as real, average);
    } else {
      ReciprocalOrder(minQP as real, average);
      ReciprocalOrder(average, maxQP as real);
    }
  }

  /** The QP after `n` frames that all see the same buffer level and the same average. */
  function QPAfter(n: nat, overshoot: real, dequant: real, minQP: int, maxQP: int, qp: int, pyramid: bool): int
    requires 0 < minQP <= maxQP
  {
    if n == 0 then qp
    else
      QPAfter(n - 1, overshoot, dequant, minQP, maxQP,
              GetNewQPTotal(overshoot, dequant, minQP, maxQP, qp, pyramid, false), pyramid)
  }

  /** The control loop settles: under a steady buffer level the QP reaches the wanted one in at most as many frames
      as it was steps away, and then stays. */
  lemma {:induction false} QPSettles(
    n: nat, overshoot: real, dequant: real, minQP: int, maxQP: int, qp: int, pyramid: bool)
    requires 0 < minQP <= maxQP && minQP <= qp <= maxQP
    requires n >= Apart(WantedQP(overshoot, dequant, minQP, maxQP), qp)
    ensures QPAfter(n, overshoot, dequant, minQP, maxQP, qp, pyramid) == WantedQP(overshoot, dequant, minQP, maxQP)
  {
    hide WantedQP, Slew;
    WantedQPInLimits(overshoot, dequant, minQP, maxQP);
    if n > 0 {
      SlewMovesTowards(WantedQP(overshoot, dequant, minQP, maxQP), qp, pyramid, false);
      QPSettles(n - 1, overshoot, dequant, minQP, maxQP,
                GetNewQPTotal(overshoot, dequant, minQP, maxQP, qp, pyramid, false), pyramid);
    }
  }

  /** With the buffer on target and the average QP inside the limits, the wanted QP is that average, rounded. */
  lemma OnTargetKeepsAverage(average: real, minQP: int, maxQP: int)
    requires 0 < minQP <= maxQP && minQP as real <= average <= maxQP as real
    ensures WantedQP(0.0, Quotient(1.0, average), minQP, maxQP) == (average + 0.5).Floor
  {
    hide Quotient;
    ReciprocalOrder(minQP as real, average);
    ReciprocalOrder(average, maxQP as real);
    var d := Quotient(1.0, average);
    QuotientOrder(1.0, d, average);
    assert average * d == 1.0;
  }

  /** At full overshoot the wanted QP is the largest allowed. */
  lemma FullOvershootWantsMaximum(overshoot: real, dequant: real, minQP: int, maxQP: int)
    requires 0 < minQP <= maxQP && overshoot >= 1.0
    ensures WantedQP(overshoot, dequant, minQP, maxQP) == maxQP
  {
    hide Quotient;
    ReciprocalOrder(minQP as real, maxQP as real);
    var lo := Quotient(1.0, maxQP as real);
    QuotientOrder(1.0, lo, maxQP as real);
  }

  // ----- between the QP scales of the frame types -----

  datatype PicType = IDR | I | P | B

  datatype QpModulation = NotDefined | Low | Medium | High

  /** QP offset of a frame in the B pyramid. */
  function GetOffsetAPQ(level: int, isRef: bool, modulation: QpModulation): int {
    var l := MaxInt(1, MinInt(3, level));
    match modulation
    case High => if l == 3 then 5 else if l == 2 then 3 else 2
    case Medium => if l == 3 then 4 else if l == 2 then 2 else 1
    case Low => if l == 3 then 1 else if l == 2 then 0 else -1
    case NotDefined => l - 1 + if isRef then 0 else 1
  }

  /** A deeper layer, a non-reference frame and a stronger modulation never lower the offset; a layer adds at
      most two steps, and layers from three on are alike. */
  lemma OffsetAPQGrows(level: int, isRef: bool, modulation: QpModulation)
    ensures var o := GetOffsetAPQ(level, isRef, modulation);
            var deeper := GetOffsetAPQ(level + 1, isRef, modulation);
            && o <= deeper <= o + 2
            && (deeper == o <==> level < 1 || level >= 3)
            && (modulation == NotDefined ==> o == GetOffsetAPQ(level, true, modulation) + if isRef then 0 else 1)
            && GetOffsetAPQ(level, isRef, Low) < GetOffsetAPQ(level, isRef, Medium) < GetOffsetAPQ(level, isRef, High)
  {
  }

  /** The offsets themselves: by strength of the modulation, two above the first B layer and with wider gaps the
      stronger it is; undefined, the layers below the first, one more for frames that nothing refers to. */
  lemma OffsetAPQValues(isRef: bool)
    ensures forall l, m | 1 <= l <= 3 ::
      GetOffsetAPQ(l, isRef, m) ==
        match m
        case NotDefined => l - (if isRef then 1 else 0)
        case Low => l - 2
        case Medium => [1, 2, 4][l - 1]
        case High => [2, 3, 5][l - 1]
  {
  }

  /** Where a frame sits in the GOP: everything that separates its QP from the base P-frame QP. */
  datatype Role = Role(picType: PicType, layer: int, isRef: bool, modulation: QpModulation)

  /** The base QPs of a context, one per frame type. */
  datatype BaseQPs = BaseQPs(idr: int, i: int, p: int, b: int)

  /** The limits come from byte fields of the coding options. Nothing makes a minimum stay below its maximum. */
  datatype QpLimits = QpLimits(minI: int, maxI: int, minP: int, maxP: int, minB: int, maxB: int) {
    predicate Valid() {
      && 1 <= minI <= 255 && 1 <= minP <= 255 && 1 <= minB <= 255
      && 1 <= maxI <= 255 && 1 <= maxP <= 255 && 1 <= maxB <= 255
    }

    predicate Ordered() { minI <= maxI && minP <= maxP && minB <= maxB }

    function Min(t: PicType): int {
      match t case IDR => minI case I => minI case P => minP case B => minB
    }

    function Max(t: PicType): int {
      match t case IDR => maxI case I => maxI case P => maxP case B => maxB
    }
  }

  /** How far above the sequence QP a frame of this role is coded. */
  function RoleOffset(r: Role, iDQp: nat): int {
    match r.picType
    case IDR => -1 - iDQp
    case I => -1
    case P => r.layer
    case B => 1 + GetOffsetAPQ(r.layer, r.isRef, r.modulation)
  }

  function GetSeqQP(qp: int, r: Role, iDQp: nat, lim: QpLimits): int {
    var pqp :=
      match r.picType
      case IDR => qp + iDQp + 1
      case I => qp + 1
      case P => qp - r.layer
      case B => qp - GetOffsetAPQ(r.layer, r.isRef, r.modulation) - 1;
    Clamp(pqp, lim.minP, lim.maxP)
  }

  function GetPicQP(pqp: int, r: Role, iDQp: nat, lim: QpLimits): int {
    match r.picType
    case IDR => Clamp(pqp - 1 - iDQp, lim.minI, lim.maxI)
    case I => Clamp(pqp - 1, lim.minI, lim.maxI)
    case P => Clamp(pqp + r.layer, lim.minP, lim.maxP)
    case B => Clamp(pqp + 1 + GetOffsetAPQ(r.layer, r.isRef, r.modulation), lim.minB, lim.maxB)
  }

  function SetQPParams(qp: int, r: Role, iDQp: nat, minQuant: int, maxQuant: int): BaseQPs {
    var base :=
      match r.picType
      case IDR => BaseQPs(qp, qp + iDQp, qp + 1 + iDQp, qp + 2 + iDQp)
      case I => BaseQPs(qp - iDQp, qp, qp + 1, qp + 2)
      case P => var q := qp - r.layer; BaseQPs(q - 1 - iDQp, q - 1, q, q + 1)
      case B => var q := qp - GetOffsetAPQ(r.layer, r.isRef, r.modulation); BaseQPs(q - 2 - iDQp, q - 2, q - 1, q);
    BaseQPs(Clamp(base.idr, minQuant, maxQuant), Clamp(base.i, minQuant, maxQuant),
            Clamp(base.p, minQuant, maxQuant), Clamp(base.b, minQuant, maxQuant))
  }

  function GetCurQP(base: BaseQPs, r: Role, lim: QpLimits): int {
    match r.picType
    case IDR => Clamp(base.idr, lim.minI, lim.maxI)
    case I => Clamp(base.i, lim.minI, lim.maxI)
    case P => Clamp(base.p + r.layer, lim.minP, lim.maxP)
    case B => Clamp(base.b + GetOffsetAPQ(r.layer, r.isRef, r.modulation), lim.minB, lim.maxB)
  }

  /** Going to the sequence scale and back returns the same QP exactly when the QP is within its own limits and
      either stays within the P-frame limits on the way or is returned to the limit it stands at. */
  lemma SequenceScaleRoundTrip(qp: int, r: Role, iDQp: nat, lim: QpLimits)
    requires lim.Ordered()
    ensures var lo, hi, pqp := lim.Min(r.picType), lim.Max(r.picType), qp - RoleOffset(r, iDQp);
            GetPicQP(GetSeqQP(qp, r, iDQp, lim), r, iDQp, lim) == qp
            <==> && lo <= qp <= hi
                 && (lim.minP <= pqp || qp == hi)
                 && (pqp <= lim.maxP || qp == lo)
  {
  }

  /** The scale of the sequence is that of P frames at the bottom of the pyramid: where nothing clamps, I frames are
      coded one below it, IDR frames lower by the IDR offset as well, B frames one above it plus their pyramid
      offset. */
  lemma PicQPOfSequence(pqp: int, layer: int, isRef: bool, modulation: QpModulation, iDQp: nat, lim: QpLimits)
    requires lim.Ordered()
    ensures var idr, i := Role(IDR, layer, isRef, modulation), Role(I, layer, isRef, modulation);
            var p, b := Role(P, layer, isRef, modulation), Role(B, layer, isRef, modulation);
            && (lim.minI <= pqp - 1 - iDQp <= lim.maxI ==> GetPicQP(pqp, idr, iDQp, lim) == pqp - 1 - iDQp)
            && (lim.minI <= pqp - 1 <= lim.maxI ==> GetPicQP(pqp, i, iDQp, lim) == pqp - 1)
            && (lim.minP <= pqp + layer <= lim.maxP ==> GetPicQP(pqp, p, iDQp, lim) == pqp + layer)
            && (var qp := pqp + 1 + GetOffsetAPQ(layer, isRef, modulation);
                lim.minB <= qp <= lim.maxB ==> GetPicQP(pqp, b, iDQp, lim) == qp)
  {
    hide GetOffsetAPQ;
  }

  /** The base QPs are those of the sequence QP of the frame, each brought inside the limits if need be; a frame gets
      the base QP of its type, P and B frames their layer's offset more, inside the limits of the type. */
  lemma BaseQPsMeaning(qp: int, r: Role, iDQp: nat, minQuant: int, maxQuant: int, lim: QpLimits)
    requires minQuant <= maxQuant && lim.Ordered()
    ensures var base, q := SetQPParams(qp, r, iDQp, minQuant, maxQuant), qp - RoleOffset(r, iDQp);
            && IsNearest(base.idr, q - 1 - iDQp, minQuant, maxQuant) && IsNearest(base.i, q - 1, minQuant, maxQuant)
            && IsNearest(base.p, q, minQuant, maxQuant) && IsNearest(base.b, q + 1, minQuant, maxQuant)
            && (r.picType == IDR ==> IsNearest(GetCurQP(base, r, lim), base.idr, lim.minI, lim.maxI))
            && (r.picType == I ==> IsNearest(GetCurQP(base, r, lim), base.i, lim.minI, lim.maxI))
            && (r.picType == P ==> IsNearest(GetCurQP(base, r, lim), base.p + r.layer, lim.minP, lim.maxP))
            && (r.picType == B ==>
                  var offset := GetOffsetAPQ(r.layer, r.isRef, r.modulation);
                  IsNearest(GetCurQP(base, r, lim), base.b + offset, lim.minB, lim.maxB))
  {
    hide GetOffsetAPQ;
  }

  predicate IsNearest(x: int, wanted: int, least: int, most: int) {
    least <= x <= most && (x == wanted || (wanted < least && x == least) || (most < wanted && x == most))
  }

  /** Base QPs set from a frame's QP put every role on the same sequence scale: a frame of any role then gets
      the sequence QP plus its own offset, when nothing clamps. */
  lemma SetThenGet(qp: int, r: Role, r': Role, iDQp: nat, minQuant: int, maxQuant: int, lim: QpLimits)
    requires var q := qp - RoleOffset(r, iDQp); minQuant <= q - 1 - iDQp && q + 1 <= maxQuant
    requires var qp' := qp - RoleOffset(r, iDQp) + RoleOffset(r', iDQp);
             lim.Min(r'.picType) <= qp' <= lim.Max(r'.picType)
    ensures GetCurQP(SetQPParams(qp, r, iDQp, minQuant, maxQuant), r', lim)
         == qp - RoleOffset(r, iDQp) + RoleOffset(r', iDQp)
  {
    hide SetQPParams;
    SetMeaning(qp, r, iDQp, minQuant, maxQuant);
    hide GetOffsetAPQ;
  }

  lemma SetMeaning(qp: int, r: Role, iDQp: nat, minQuant: int, maxQuant: int)
    requires var q := qp - RoleOffset(r, iDQp); minQuant <= q - 1 - iDQp && q + 1 <= maxQuant
    ensures var q := qp - RoleOffset(r, iDQp);
            SetQPParams(qp, r, iDQp, minQuant, maxQuant) == BaseQPs(q - 1 - iDQp, q - 1, q, q + 1)
  {
    hide GetOffsetAPQ;
  }
}
