/** Buffer parameters shared by both reference decoders. Times are in ticks of a 90 kHz clock. */
module HrdInput {
  import opened Numeric

  /** The part of the rate-control parameters the reference decoders read. */
  datatype Params = Params(cbr: bool, maxbps: nat, frameRate: real, bufferSizeInBytes: nat, initialDelayInBytes: nat) {
    predicate Valid() { maxbps > 0 && frameRate > 0.0 }
  }

  /** `m_cpbSize90k` is a floating-point field that only ever holds a truncated value. */
  datatype Input = Input(
    cbr: bool, bitrate: nat, maxCpbRemovalDelay: nat,
    clockTick: real, cpbSize90k: int, initCpbRemovalDelay: real)
  {
    predicate Valid() {
      bitrate > 0 && clockTick > 0.0 && cpbSize90k >= 0 && initCpbRemovalDelay >= 0.0
    }

    function Rate(): real { bitrate as real }

    function Cpb(): real { cpbSize90k as real }
  }

  /** One coded frame as the reference decoders see it: its size and whether it opens a buffering period. */
  datatype Frame = Frame(bits: nat, sei: bool)

  function FromParams(p: Params): (h: Input)
    requires p.Valid()
  {
    var rate := p.maxbps as real;
    Input(
      p.cbr,
      p.maxbps,
      0x100_0000, // 1 << 24
      Quotient(90000.0, p.frameRate),
      Quotient(90000.0 * p.bufferSizeInBytes as real * 8.0, rate).Floor,
      Quotient(90000.0 * 8.0 * p.initialDelayInBytes as real, rate))
  }

  /** `x` multiplied by the bit rate. Proofs hide this product and use the lemmas below. */
  function TimesRate(h: Input, x: real): real { x * h.Rate() }

  function OverRate(h: Input, x: real): (q: real)
    requires h.Valid()
    ensures TimesRate(h, q) == x
  {
    Quotient(x, h.Rate())
  }

  lemma RateOrder(h: Input, x: real, y: real)
    requires h.Valid()
    ensures x <= y <==> TimesRate(h, x) <= TimesRate(h, y)
    ensures x < y <==> TimesRate(h, x) < TimesRate(h, y)
  {
    ScaledOrder(x, y, h.Rate());
  }

  lemma RateSum(h: Input, x: real, y: real)
    ensures TimesRate(h, x + y) == TimesRate(h, x) + TimesRate(h, y)
    ensures TimesRate(h, x - y) == TimesRate(h, x) - TimesRate(h, y)
  {
  }

  lemma RateScaled(h: Input, x: real)
    ensures TimesRate(h, x / 90000.0) == TimesRate(h, x) / 90000.0
    ensures TimesRate(h, 0.0) == 0.0
  {
  }

  /** The buffer length in ticks is the longest whole number of ticks whose bits fit the buffer,
      and the initial delay is the time the initial bits take to arrive. */
  lemma InitMeaning(p: Params)
    requires p.Valid()
    ensures FromParams(p).Valid()
    ensures var h := FromParams(p);
            && TimesRate(h, h.Cpb()) <= 720000.0 * p.bufferSizeInBytes as real
            && 720000.0 * p.bufferSizeInBytes as real < TimesRate(h, h.Cpb() + 1.0)
            && TimesRate(h, h.initCpbRemovalDelay) == 720000.0 * p.initialDelayInBytes as real
            && h.clockTick * p.frameRate == 90000.0
            && h.cbr == p.cbr && h.bitrate == p.maxbps && h.maxCpbRemovalDelay == 0x100_0000
  {
    var rate := p.maxbps as real;
    FloorOfQuotient(90000.0 * p.bufferSizeInBytes as real * 8.0, rate);
    FloorOfQuotient(90000.0 * 8.0 * p.initialDelayInBytes as real, rate);
    QuotientOrder(90000.0, p.frameRate, 0.0);
  }
}
