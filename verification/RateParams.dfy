/** Initialisation of the rates and buffer sizes: rounding to what the HRD syntax of a stream can express. */
module RateParams {
  import opened Numeric
  import HrdInput

  function Pow2(n: nat): (p: nat)
    ensures p >= 1
  {
    if n == 0 then 1 else 2 * Pow2(n - 1)
  }

  /** Whether the low `n` bits of `x` are zero: `(x & ((1 << n) - 1)) == 0`. */
  predicate LowBitsClear(x: nat, n: nat) {
    n == 0 || (x % 2 == 0 && LowBitsClear(x / 2, n - 1))
  }

  function ShiftRight(x: nat, n: nat): nat {
    if n == 0 then x else ShiftRight(x / 2, n - 1)
  }

  function ShiftLeft(x: nat, n: nat): nat {
    if n == 0 then x else 2 * ShiftLeft(x, n - 1)
  }

  function RoundDown(x: nat, n: nat): nat { ShiftLeft(ShiftRight(x, n), n) }

  /** Rounding down gives the largest value with clear low bits that does not exceed `x`. */
  lemma {:induction false} RoundDownMeaning(x: nat, n: nat)
    ensures RoundDown(x, n) <= x < RoundDown(x, n) + Pow2(n)
    ensures LowBitsClear(RoundDown(x, n), n)
    ensures RoundDown(x, n) == 0 <==> x < Pow2(n)
    ensures LowBitsClear(x, n) <==> RoundDown(x, n) == x
  {
    if n > 0 {
      RoundDownMeaning(x / 2, n - 1);
      RoundDownUnfolds(x, n);
      hide RoundDown;
      Doubling(RoundDown(x / 2, n - 1), n - 1);
    }
  }

  lemma RoundDownUnfolds(x: nat, n: nat)
    requires n > 0
    ensures RoundDown(x, n) == 2 * RoundDown(x / 2, n - 1)
  {
  }

  lemma Doubling(x: nat, n: nat)
    ensures LowBitsClear(2 * x, n + 1) <==> LowBitsClear(x, n)
  {
    assert 2 * x % 2 == 0 && 2 * x / 2 == x;
  }

  /** Clear low bits mean divisibility by the power of two. */
  lemma {:induction false} LowBitsClearMeaning(x: nat, n: nat)
    ensures LowBitsClear(x, n) <==> x % Pow2(n) == 0
  {
    if n > 0 {
      LowBitsClearMeaning(x / 2, n - 1);
      HalvesDivide(x, Pow2(n - 1));
    }
  }

  lemma HalvesDivide(x: nat, p: nat)
    requires p > 0
    ensures x % (2 * p) == 0 <==> x % 2 == 0 && x / 2 % p == 0
  {
    var k, q := x / (2 * p), x / 2 / p;
    assert x == k * (2 * p) + x % (2 * p);
    assert x / 2 == q * p + x / 2 % p;
    Reassociate(k, p);
    Reassociate(q, p);
    if x % (2 * p) == 0 {
      DivModUnique(x / 2, p, k, 0);
    }
    if x % 2 == 0 && x / 2 % p == 0 {
      DivModUnique(x, 2 * p, q, 0);
    }
  }

  lemma Reassociate(k: int, p: int)
    ensures k * (2 * p) == 2 * (k * p)
  {
  }

  /** If the low `n` bits are clear, so are fewer of them. */
  lemma {:induction false} FewerBitsClear(x: nat, m: nat, n: nat)
    requires m <= n && LowBitsClear(x, n)
    ensures LowBitsClear(x, m)
  {
    if m > 0 {
      FewerBitsClear(x / 2, m - 1, n - 1);
    }
  }

  /** The largest usable scale: between `least` and 16, the low `base + scale` bits of `x` being clear unless
      it is the least, and not being clear for any larger usable scale. */
  ghost predicate IsLargestScale(x: nat, base: nat, least: nat, scale: nat) {
    && least <= scale <= 16
    && (scale > least ==> LowBitsClear(x, base + scale))
    && forall n :: base + scale < n <= base + 16 ==> !LowBitsClear(x, n)
  }

  lemma LargestScaleIsUnique(x: nat, base: nat, least: nat, s1: nat, s2: nat)
    requires IsLargestScale(x, base, least, s1) && IsLargestScale(x, base, least, s2)
    ensures s1 == s2
  {
    hide LowBitsClear;
  }

  method HevcBitRateScale(bitrate: nat) returns (scale: nat)
    ensures IsLargestScale(bitrate, 6, 0, scale)
  {
    hide LowBitsClear;
    scale := 0;
    while scale < 16 && LowBitsClear(bitrate, 6 + scale + 1)
      invariant scale <= 16
      invariant scale > 0 ==> LowBitsClear(bitrate, 6 + scale)
    {
      scale := scale + 1;
    }
    NoMoreBitsClear(bitrate, 6, scale);
  }

  method HevcCbpSizeScale(cpbSize: nat) returns (scale: nat)
    ensures IsLargestScale(cpbSize, 4, 2, scale)
  {
    hide LowBitsClear;
    scale := 2;
    while scale < 16 && LowBitsClear(cpbSize, 4 + scale + 1)
      invariant 2 <= scale <= 16
      invariant scale > 2 ==> LowBitsClear(cpbSize, 4 + scale)
    {
      scale := scale + 1;
    }
    NoMoreBitsClear(cpbSize, 4, scale);
  }

  lemma NoMoreBitsClear(x: nat, base: nat, scale: nat)
    requires scale < 16 ==> !LowBitsClear(x, base + scale + 1)
    ensures forall n :: base + scale < n <= base + 16 ==> !LowBitsClear(x, n)
  {
    hide LowBitsClear;
    forall n | base + scale < n <= base + 16 ensures !LowBitsClear(x, n) {
      if LowBitsClear(x, n) {
        FewerBitsClear(x, base + scale + 1, n);
      }
    }
  }

  // ----- initialisation -----

  datatype RateControl = CBR | VBR | Other

  /** The part of the controller's configuration that sets rates and buffers. */
  datatype Ctrl = Ctrl(
    rateControl: RateControl, avc: bool, hrd: bool,
    targetKbps: nat, maxKbps: nat, bufferSizeInKB: nat, initialDelayInKB: nat,
    frameRateN: nat, frameRateD: nat, maxFrameSizeInBits: nat)
  {
    /** The rate asked for: the target in CBR, in VBR the maximum if it is not below the target. */
    function AskedBps(): nat {
      if rateControl == CBR || maxKbps < targetKbps then targetKbps * 1000 else maxKbps * 1000
    }
  }

  /** The rate asked for is the target in CBR; in VBR it is the larger of target and maximum. */
  lemma AskedBpsMeaning(c: Ctrl)
    ensures var target, most := c.targetKbps * 1000, c.maxKbps * 1000;
            && (c.rateControl == CBR ==> c.AskedBps() == target)
            && (c.rateControl != CBR ==>
                  target <= c.AskedBps() && most <= c.AskedBps() && c.AskedBps() in {target, most})
  {
  }

  datatype Status = Ok | UndefinedBehavior

  datatype Rates = Rates(
    hrd: HrdInput.Params, targetbps: nat, rec: bool, bitRateScale: nat, cpbSizeScale: nat)

  /** What initialisation promises about its rounding. */
  ghost predicate RoundedFor(c: Ctrl, r: Rates) {
    && r.hrd.cbr == (c.rateControl == CBR)
    && r.hrd.maxbps <= c.AskedBps() < r.hrd.maxbps + (if c.avc then 1024 else 64)
    && LowBitsClear(r.hrd.maxbps, 6 + r.bitRateScale)
    && (if c.avc then r.bitRateScale == 4 && r.cpbSizeScale == 2
        else IsLargestScale(c.AskedBps(), 6, 0, r.bitRateScale) && IsLargestScale(c.AskedBps(), 4, 2, r.cpbSizeScale))
    && r.targetbps == c.targetKbps * 1000
    && (c.hrd || c.maxFrameSizeInBits != 0 <==> r.rec)
    && (c.hrd ==>
          && RoundedSize(c.bufferSizeInKB, r.hrd.bufferSizeInBytes, r.cpbSizeScale)
          && RoundedSize(c.initialDelayInKB, r.hrd.initialDelayInBytes, r.cpbSizeScale))
  }

  /** The largest size up to the one asked for whose bits are a multiple of 2^(4 + scale). */
  ghost predicate RoundedSize(askedKB: nat, bytes: nat, scale: nat) {
    && bytes <= askedKB * 1000 < bytes + Pow2(scale + 1)
    && LowBitsClear(8 * bytes, 4 + scale)
  }

  /** The rounding part of `cBRCParams::Init`. */
  method Init(c: Ctrl) returns (status: Status, r: Rates)
    ensures status == Ok <==> c.rateControl in {CBR, VBR} && c.frameRateN != 0 && c.frameRateD != 0
    ensures status == Ok ==> RoundedFor(c, r) && r.hrd.frameRate * c.frameRateD as real == c.frameRateN as real
  {
    hide RoundDown, LowBitsClear, IsLargestScale, Pow2, RoundedSize;
    r := Rates(HrdInput.Params(false, 0, 0.0, 0, 0), 0, false, 0, 0);
    if c.rateControl == Other {
      return UndefinedBehavior, r;
    }
    var targetbps, maxbps := c.targetKbps * 1000, c.maxKbps * 1000;
    maxbps := if c.rateControl == CBR then targetbps else if maxbps >= targetbps then maxbps else targetbps;
    var bitRateScale, cpbSizeScale := 4, 2;
    if !c.avc {
      bitRateScale := HevcBitRateScale(maxbps);
      cpbSizeScale := HevcCbpSizeScale(maxbps);
    }
    maxbps := RoundDown(maxbps, 6 + bitRateScale);
    var bufferSizeInBytes, initialDelayInBytes, rec := 0, 0, false;
    if c.hrd {
      bufferSizeInBytes := RoundDown(c.bufferSizeInKB * 1000, cpbSizeScale + 1);
      initialDelayInBytes := RoundDown(c.initialDelayInKB * 1000, cpbSizeScale + 1);
      rec := true;
    }
    if c.frameRateD == 0 || c.frameRateN == 0 {
      return UndefinedBehavior, r;
    }
    var frameRate := Quotient(c.frameRateN as real, c.frameRateD as real);
    if c.maxFrameSizeInBits != 0 {
      rec := true;
    }
    r := Rates(HrdInput.Params(c.rateControl == CBR, maxbps, frameRate, bufferSizeInBytes, initialDelayInBytes),
               targetbps, rec, bitRateScale, cpbSizeScale);
    status := Ok;
    RateIsRounded(c.AskedBps(), c.avc, bitRateScale);
    SizeIsRounded(c.bufferSizeInKB, cpbSizeScale);
    SizeIsRounded(c.initialDelayInKB, cpbSizeScale);
  }

  /** The promise leaves no choice: every scale, rate and size is determined by the configuration. */
  lemma RoundingIsDetermined(c: Ctrl, r1: Rates, r2: Rates)
    requires RoundedFor(c, r1) && RoundedFor(c, r2)
    ensures r1.bitRateScale == r2.bitRateScale && r1.cpbSizeScale == r2.cpbSizeScale
    ensures r1.hrd.cbr == r2.hrd.cbr && r1.hrd.maxbps == r2.hrd.maxbps
    ensures r1.targetbps == r2.targetbps && r1.rec == r2.rec
    ensures c.hrd ==>
      && r1.hrd.bufferSizeInBytes == r2.hrd.bufferSizeInBytes
      && r1.hrd.initialDelayInBytes == r2.hrd.initialDelayInBytes
  {
    hide LowBitsClear, IsLargestScale, RoundedSize;
    if !c.avc {
      LargestScaleIsUnique(c.AskedBps(), 6, 0, r1.bitRateScale, r2.bitRateScale);
      LargestScaleIsUnique(c.AskedBps(), 4, 2, r1.cpbSizeScale, r2.cpbSizeScale);
    }
    RatesInOrder(r1.hrd.maxbps, r2.hrd.maxbps, c.avc, r1.bitRateScale);
    RatesInOrder(r2.hrd.maxbps, r1.hrd.maxbps, c.avc, r1.bitRateScale);
    if c.hrd {
      var scale := r1.cpbSizeScale;
      SizesInOrder(c.bufferSizeInKB, r1.hrd.bufferSizeInBytes, r2.hrd.bufferSizeInBytes, scale);
      SizesInOrder(c.initialDelayInKB, r1.hrd.initialDelayInBytes, r2.hrd.initialDelayInBytes, scale);
    }
  }

  lemma SizesInOrder(kb: nat, bytes1: nat, bytes2: nat, scale: nat)
    requires RoundedSize(kb, bytes1, scale) && RoundedSize(kb, bytes2, scale)
    ensures bytes1 == bytes2
  {
    hide RoundedSize;
    RoundedSizesKeepOrder(kb, kb, bytes1, bytes2, scale);
    RoundedSizesKeepOrder(kb, kb, bytes2, bytes1, scale);
  }

  lemma RatesInOrder(bps1: nat, bps2: nat, avc: bool, scale: nat)
    requires LowBitsClear(bps1, 6 + scale) && LowBitsClear(bps2, 6 + scale) && (avc ==> scale == 4)
    requires bps1 < bps2 + (if avc then 1024 else 64)
    ensures bps1 <= bps2
  {
    hide LowBitsClear;
    var n := if avc then 10 else 6;
    assert Pow2(6) == 64 && Pow2(10) == 1024;
    FewerBitsClear(bps1, n, 6 + scale);
    FewerBitsClear(bps2, n, 6 + scale);
    LowBitsClearMeaning(bps1, n);
    LowBitsClearMeaning(bps2, n);
    hide Pow2;
    MultiplesInOrder(bps1, bps2, Pow2(n));
  }

  lemma MultiplesOfEight(bytes: nat, kb: nat)
    requires 8 * bytes % 64 == 0 && bytes <= 1000 * kb < bytes + 8
    ensures bytes == 1000 * kb
  {
  }

  /** For H.264 the sizes are not rounded at all: a kilobyte is a multiple of the unit. */
  lemma AvcSizesAreExact(kb: nat, bytes: nat)
    requires RoundedSize(kb, bytes, 2)
    ensures bytes == 1000 * kb
  {
    hide LowBitsClear;
    assert Pow2(3) == 8 && Pow2(6) == 64;
    LowBitsClearMeaning(8 * bytes, 6);
    hide Pow2;
    MultiplesOfEight(bytes, kb);
  }

  lemma {:induction false} RateIsRounded(asked: nat, avc: bool, scale: nat)
    requires if avc then scale == 4 else IsLargestScale(asked, 6, 0, scale)
    ensures var rounded := RoundDown(asked, 6 + scale);
            && rounded <= asked < rounded + (if avc then 1024 else 64)
            && LowBitsClear(rounded, 6 + scale)
  {
    hide LowBitsClear, RoundDown;
    assert Pow2(6) == 64 && Pow2(10) == 1024;
    RoundDownMeaning(asked, 6 + scale);
  }

  lemma SizeIsRounded(askedKB: nat, scale: nat)
    ensures RoundedSize(askedKB, RoundDown(askedKB * 1000, scale + 1), scale)
  {
    hide RoundDown, LowBitsClear, Pow2;
    var bytes := RoundDown(askedKB * 1000, scale + 1);
    RoundDownMeaning(askedKB * 1000, scale + 1);
    BitsOfBytes(bytes, scale + 1);
  }

  lemma BitsOfBytes(bytes: nat, n: nat)
    requires LowBitsClear(bytes, n)
    ensures LowBitsClear(8 * bytes, n + 3)
  {
    hide LowBitsClear;
    Doubling(bytes, n);
    Doubling(2 * bytes, n + 1);
    Doubling(4 * bytes, n + 2);
  }

  /** Rounding keeps order: a size not above another is not above it after both are rounded with one scale. */
  lemma RoundedSizesKeepOrder(kb1: nat, kb2: nat, bytes1: nat, bytes2: nat, scale: nat)
    requires RoundedSize(kb1, bytes1, scale) && RoundedSize(kb2, bytes2, scale) && kb1 <= kb2
    ensures bytes1 <= bytes2
  {
    hide LowBitsClear, Pow2;
    LowBitsClearMeaning(8 * bytes1, 4 + scale);
    LowBitsClearMeaning(8 * bytes2, 4 + scale);
    EightTimes(scale + 1);
    MultiplesInOrder(8 * bytes1, 8 * bytes2, Pow2(4 + scale));
  }

  lemma EightTimes(n: nat)
    ensures Pow2(n + 3) == 8 * Pow2(n)
  {
    assert Pow2(n + 3) == 2 * Pow2(n + 2) == 4 * Pow2(n + 1);
  }

  lemma MultiplesInOrder(x: nat, y: nat, p: nat)
    requires p > 0 && x % p == 0 && y % p == 0 && x < y + p
    ensures x <= y
  {
    var a, b := x / p, y / p;
    assert x == a * p && y == b * p;
    if a > b {
      MultipleAtLeast(a - b, p);
      DistributeInt(a - b, b, p);
    }
  }

  /** The buffer scale is taken from the bit rate, not from the buffer. At 131.072 Mbit/s it reaches 16, and a
      buffer of up to 131 kB is rounded to nothing: the buffer survives if and only if it holds 2^(scale + 1) bytes. */
  lemma HighRateCanEmptyTheBuffer(scale: nat)
    requires IsLargestScale(131072 * 1000, 4, 2, scale)
    ensures scale == 16
    ensures forall kb: nat :: RoundDown(kb * 1000, scale + 1) == 0 <==> kb <= 131
  {
    hide LowBitsClear, RoundDown;
    LiteralPowers();
    forall kb: nat ensures RoundDown(kb * 1000, 17) == 0 <==> kb <= 131 {
      RoundDownMeaning(kb * 1000, 17);
    }
  }

  /** For any configuration: the buffer is rounded to nothing if and only if it is below one unit of its scale. */
  lemma BufferIsEmptied(c: Ctrl, r: Rates)
    requires RoundedFor(c, r) && c.hrd
    ensures r.hrd.bufferSizeInBytes == 0 <==> 1000 * c.bufferSizeInKB < Pow2(r.cpbSizeScale + 1)
  {
    hide LowBitsClear, IsLargestScale, Pow2;
    var bytes, scale := r.hrd.bufferSizeInBytes, r.cpbSizeScale;
    LowBitsClearMeaning(8 * bytes, 4 + scale);
    EightTimes(scale + 1);
    if 0 < bytes {
      MultiplesInOrder(Pow2(4 + scale), 8 * bytes, Pow2(4 + scale));
    }
  }

  lemma LiteralPowers()
    ensures Pow2(17) == 131072
    ensures LowBitsClear(131072 * 1000, 20)
  {
    assert Pow2(8) == 256;
    assert Pow2(14) == 16384;
    assert Pow2(20) == 1048576;
    LowBitsClearMeaning(131072 * 1000, 20);
  }
}
