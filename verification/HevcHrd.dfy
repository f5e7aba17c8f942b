/** The H.265 reference decoder of the rate controller (C.2.2, C.2.3, C.4 and D.3.3 of ITU-T H.265).
    Unlike its H.264 counterpart it numbers frames by encode order, derives nominal removal times
    from the last buffering period, and measures arrival in ticks multiplied by the bit rate. */
module HevcHrd {
  import opened Numeric
  import opened HrdInput
  import Cpb

  datatype State = State(
    prevDelayMinus1: int, prevDelayMsb: nat,
    prevFinalArrival: real, prevBpNominalRemoval: real, prevBpEncOrder: nat)

  // ----- the decoder's operations as functions -----

  function InitialState(h: Input): State {
    State(-1, 0, 0.0, h.initCpbRemovalDelay.Floor as real, 0)
  }

  /** Removal delay of frame `eo` relative to the last buffering period, minus one, as a 32-bit word. */
  function DelayMinus1(s: State, eo: nat): nat { U32(U32(eo - s.prevBpEncOrder) - 1) }

  /** (D-1) */
  function DelayMsb(h: Input, s: State, eo: nat, sei: bool): nat {
    if !sei && U32(eo - s.prevBpEncOrder) != 1 then
      if I32(DelayMinus1(s, eo)) <= s.prevDelayMinus1
      then U32(s.prevDelayMsb + h.maxCpbRemovalDelay)
      else s.prevDelayMsb
    else 0
  }

  /** The duration of `n` frame intervals. */
  function Intervals(h: Input, n: nat): real { h.clockTick * n as real }

  /** (D-2), (C-10) and (C-11) */
  function NominalRemoval(h: Input, s: State, eo: nat, msb: nat): real {
    s.prevBpNominalRemoval + Intervals(h, U32(U32(msb + DelayMinus1(s, eo)) + 1))
  }

  /** (C-17): time from the previous frame's arrival to the removal of frame `eo`. */
  function DeltaTime90k(h: Input, s: State, eo: nat): real
    requires h.Valid()
  {
    NominalRemoval(h, s, eo, 0) - OverRate(h, s.prevFinalArrival)
  }

  /** (C-18), (C-19) */
  function Delay(h: Input, s: State, eo: nat): int
    requires h.Valid()
  {
    if eo > 0 then
      var delta := DeltaTime90k(h, s, eo);
      (if h.cbr then delta else MinReal(delta, h.Cpb())).Floor
    else h.initCpbRemovalDelay.Floor
  }

  function DelayOffset(h: Input, s: State, eo: nat): int
    requires h.Valid()
  {
    h.cpbSize90k - Delay(h, s, eo)
  }

  function MaxFrameSize(h: Input, s: State, eo: nat): int
    requires h.Valid()
  {
    TimesRate(h, Delay(h, s, eo) as real / 90000.0).Floor
  }

  function MinFrameSize(h: Input, s: State, eo: nat): int
    requires h.Valid()
  {
    var excess := Delay(h, s, eo) as real + h.clockTick + 16.0 - h.Cpb();
    if !h.cbr || excess < 0.0 then 0
    else (TimesRate(h, excess / 90000.0) + 0.99999).Floor
  }

  /** The nominal removal time `Update` uses: (C-9) for the first frame, (C-10) and (C-11) afterwards. */
  function Removal(h: Input, s: State, eo: nat, sei: bool): real {
    if eo > 0 then NominalRemoval(h, s, eo, DelayMsb(h, s, eo, sei)) else h.initCpbRemovalDelay
  }

  /** (C-3), (C-4), (C-6) and (C-7), in ticks multiplied by the bit rate */
  function ArrivalStart(h: Input, s: State, eo: nat, sei: bool): real
    requires h.Valid()
  {
    var earliest := Removal(h, s, eo, sei) - if sei then Delay(h, s, eo) as real else h.Cpb();
    if h.cbr then s.prevFinalArrival else MaxReal(s.prevFinalArrival, TimesRate(h, earliest))
  }

  function Step(h: Input, s: State, eo: nat, f: Frame): State
    requires h.Valid()
  {
    var removal := Removal(h, s, eo, f.sei);
    State(
      if eo > 0 then I32(DelayMinus1(s, eo)) else s.prevDelayMinus1,
      if eo > 0 then DelayMsb(h, s, eo, f.sei) else s.prevDelayMsb,
      ArrivalStart(h, s, eo, f.sei) + f.bits as real * 90000.0, // (C-8)
      if f.sei then removal else s.prevBpNominalRemoval,
      if f.sei then eo else s.prevBpEncOrder)
  }

  /** The frame as the coded picture buffer sees it, in bit times. */
  function Unit(h: Input, s: State, eo: nat, f: Frame): Cpb.AccessUnit
    requires h.Valid()
  {
    Cpb.AccessUnit(
      ArrivalStart(h, s, eo, f.sei) / 90000.0,
      Step(h, s, eo, f).prevFinalArrival / 90000.0,
      TimesRate(h, Removal(h, s, eo, f.sei)) / 90000.0,
      f.bits)
  }

  // ----- nominal time does not drift -----

  /** Longest run for which encode orders stay non-negative as signed 32-bit words. */
  const MAX_ORDER: nat := 0x8000_0000

  /** What consecutive frames up to `eo` leave behind when frame 0 opened a buffering period. */
  ghost predicate OnGrid(h: Input, s: State, eo: nat) {
    if eo == 0 then s.prevBpEncOrder == 0 && s.prevDelayMsb == 0
    else
      && s.prevBpEncOrder < eo
      && s.prevDelayMsb == 0
      && (s.prevBpEncOrder + 1 < eo ==> s.prevDelayMinus1 == eo - s.prevBpEncOrder - 2)
      && s.prevBpNominalRemoval == h.initCpbRemovalDelay + Intervals(h, s.prevBpEncOrder)
  }

  /** The nominal removal time of frame `eo`. */
  function Grid(h: Input, eo: nat): real { h.initCpbRemovalDelay + Intervals(h, eo) }

  lemma GridFromBufferingPeriod(h: Input, s: State, eo: nat)
    requires 0 < eo <= MAX_ORDER && OnGrid(h, s, eo)
    ensures DelayMinus1(s, eo) == eo - s.prevBpEncOrder - 1
    ensures I32(DelayMinus1(s, eo)) == DelayMinus1(s, eo)
    ensures NominalRemoval(h, s, eo, 0) == Grid(h, eo)
  {
    assert h.clockTick * (eo - s.prevBpEncOrder) as real
        == h.clockTick * eo as real - h.clockTick * s.prevBpEncOrder as real;
  }

  /** The most significant bits stay 0, so `Update` and the queries use one removal time, the grid's. */
  lemma NominalTimeDoesNotDrift(h: Input, s: State, eo: nat, sei: bool)
    requires h.Valid()
    requires eo <= MAX_ORDER && OnGrid(h, s, eo)
    ensures eo > 0 ==> DelayMsb(h, s, eo, sei) == 0 && NominalRemoval(h, s, eo, 0) == Grid(h, eo)
    ensures Removal(h, s, eo, sei) == Grid(h, eo)
  {
    if eo > 0 {
      GridFromBufferingPeriod(h, s, eo);
    }
  }

  /** How far that reaches: with no buffering period for more than 2^31 frames the delay, read as a signed
      word, turns negative, and the time base jumps by the full range of the removal delay. */
  lemma DriftStartsAfterSignedRange(h: Input, s: State, eo: nat, sei: bool)
    requires h.maxCpbRemovalDelay == 0x100_0000
    requires 0 < eo < 0x1_0000_0000 && OnGrid(h, s, eo)
    requires eo - s.prevBpEncOrder <= MAX_ORDER + 1
    ensures DelayMsb(h, s, eo, sei) == 0 <==> sei || eo - s.prevBpEncOrder <= MAX_ORDER
  {
    assert DelayMinus1(s, eo) == eo - s.prevBpEncOrder - 1;
  }

  lemma StepStaysOnGrid(h: Input, s: State, eo: nat, f: Frame)
    requires h.Valid()
    requires eo <= MAX_ORDER && OnGrid(h, s, eo)
    requires eo == 0 ==> f.sei
    ensures OnGrid(h, Step(h, s, eo, f), eo + 1)
  {
    NominalTimeDoesNotDrift(h, s, eo, f.sei);
    if eo > 0 {
      GridFromBufferingPeriod(h, s, eo);
    }
  }

  // ----- underflow -----

  /** The previous frame has arrived by the removal time of frame `eo`; nothing arrives before frame 0. */
  ghost predicate InTime(h: Input, s: State, eo: nat) {
    && s.prevFinalArrival <= TimesRate(h, Grid(h, eo))
    && (eo == 0 ==> s.prevFinalArrival == 0.0)
  }

  /** Everything a run keeps: nominal times on the grid, and every frame in time. */
  ghost predicate Sound(h: Input, s: State, eo: nat) {
    eo <= MAX_ORDER && OnGrid(h, s, eo) && InTime(h, s, eo)
  }

  lemma InitialStateSound(h: Input)
    requires h.Valid()
    ensures Sound(h, InitialState(h), 0)
  {
    hide TimesRate;
    RateScaled(h, 0.0);
    RateOrder(h, 0.0, h.initCpbRemovalDelay);
  }

  /** The reported delay is the time left until removal, rounded down and in VBR capped by the buffer. */
  lemma DelayMeaning(h: Input, s: State, eo: nat)
    requires h.Valid() && Sound(h, s, eo)
    ensures eo > 0 ==> 0.0 <= DeltaTime90k(h, s, eo)
    ensures 0 <= Delay(h, s, eo)
    ensures TimesRate(h, Delay(h, s, eo) as real) <= TimesRate(h, Grid(h, eo)) - s.prevFinalArrival
    ensures eo > 0 && !h.cbr ==> Delay(h, s, eo) <= h.cpbSize90k
    ensures h.cbr ==>
      TimesRate(h, Grid(h, eo)) - s.prevFinalArrival < TimesRate(h, Delay(h, s, eo) as real + 1.0)
  {
    hide TimesRate, OverRate, NominalRemoval, OnGrid;
    NominalTimeDoesNotDrift(h, s, eo, false);
    var left := if eo > 0 then DeltaTime90k(h, s, eo) else h.initCpbRemovalDelay;
    if eo > 0 {
      RateSum(h, Grid(h, eo), OverRate(h, s.prevFinalArrival));
    }
    RateScaled(h, 0.0);
    RateOrder(h, 0.0, left);
    RateOrder(h, Delay(h, s, eo) as real, left);
    RateOrder(h, left, Delay(h, s, eo) as real + 1.0);
  }

  /** The reported delay is the whole ticks left until removal, and in VBR, after the first frame, the buffer length
      if that is less. */
  lemma DelayIsExact(h: Input, s: State, eo: nat)
    requires h.Valid() && Sound(h, s, eo)
    ensures var left, delay := TimesRate(h, Grid(h, eo)) - s.prevFinalArrival, Delay(h, s, eo);
            && TimesRate(h, delay as real) <= left
            && (left < TimesRate(h, delay as real + 1.0) || (!h.cbr && eo > 0 && delay == h.cpbSize90k))
            && (!h.cbr && eo > 0 ==>
                  && delay <= h.cpbSize90k
                  && MinReal(left, TimesRate(h, h.Cpb())) < TimesRate(h, delay as real + 1.0))
  {
    hide TimesRate, OverRate, NominalRemoval, OnGrid;
    NominalTimeDoesNotDrift(h, s, eo, false);
    DelayMeaning(h, s, eo);
    var left := if eo > 0 then DeltaTime90k(h, s, eo) else h.initCpbRemovalDelay;
    if eo > 0 {
      RateSum(h, Grid(h, eo), OverRate(h, s.prevFinalArrival));
    }
    RateOrder(h, left, Delay(h, s, eo) as real + 1.0);
    RateOrder(h, h.Cpb(), Delay(h, s, eo) as real + 1.0);
  }

  /** The maximum query is exact: a frame is no larger if and only if its bits arrive within the reported delay. */
  lemma MaxIsExact(h: Input, s: State, eo: nat, f: Frame)
    requires h.Valid()
    ensures f.bits <= MaxFrameSize(h, s, eo) <==> OverRate(h, f.bits as real) * 90000.0 <= Delay(h, s, eo) as real
    ensures f.bits <= MaxFrameSize(h, s, eo) <==> f.bits as real <= TimesRate(h, Delay(h, s, eo) as real) / 90000.0
  {
    hide TimesRate, OverRate, Delay;
    RateScaled(h, Delay(h, s, eo) as real);
    RateOrder(h, OverRate(h, f.bits as real), Delay(h, s, eo) as real / 90000.0);
  }

  /** In CBR the minimum is what would arrive beyond the buffer length by the removal after the next, with 16 ticks to
      spare and nearly a bit more, rounded down; in VBR there is none. */
  lemma MinIsExact(h: Input, s: State, eo: nat)
    requires h.Valid()
    ensures var beyond := Delay(h, s, eo) as real + h.clockTick + 16.0 - h.Cpb();
            var least := MinFrameSize(h, s, eo);
            && (!h.cbr || beyond < 0.0 ==> least == 0)
            && (h.cbr && beyond >= 0.0 ==>
                  least as real - 0.99999 <= TimesRate(h, beyond) / 90000.0 < least as real + 0.00001)
  {
    hide TimesRate, Delay;
    RateScaled(h, Delay(h, s, eo) as real + h.clockTick + 16.0 - h.Cpb());
  }

  /** Every unsigned cast in `Update` and the queries sees a non-negative operand. */
  lemma CastsAreDefined(h: Input, s: State, eo: nat)
    requires h.Valid() && Sound(h, s, eo)
    ensures eo > 0 ==> 0.0 <= DeltaTime90k(h, s, eo)
    ensures 0 <= Delay(h, s, eo) && 0 <= MaxFrameSize(h, s, eo) && 0 <= MinFrameSize(h, s, eo)
  {
    hide TimesRate, Delay;
    DelayMeaning(h, s, eo);
    RateScaled(h, 0.0);
    RateOrder(h, 0.0, Delay(h, s, eo) as real / 90000.0);
    RateOrder(h, 0.0, (Delay(h, s, eo) as real + h.clockTick + 16.0 - h.Cpb()) / 90000.0);
  }

  /** A frame within the maximum arrives completely before it is removed. */
  lemma MaxKeepsInTime(h: Input, s: State, eo: nat, f: Frame)
    requires h.Valid() && Sound(h, s, eo) && eo < MAX_ORDER
    requires eo == 0 ==> f.sei
    requires f.bits <= MaxFrameSize(h, s, eo)
    ensures Sound(h, Step(h, s, eo, f), eo + 1)
    ensures Unit(h, s, eo, f).final <= Unit(h, s, eo, f).removal
  {
    hide TimesRate, Delay, Removal, OnGrid;
    DelayMeaning(h, s, eo);
    NominalTimeDoesNotDrift(h, s, eo, f.sei);
    StepStaysOnGrid(h, s, eo, f);
    var delay, removal := Delay(h, s, eo) as real, Grid(h, eo);
    RateScaled(h, delay);
    RateSum(h, removal, delay);
    RateSum(h, removal, h.Cpb());
    RateOrder(h, delay, h.Cpb());
    GridAdvances(h, eo);
    RateOrder(h, removal, Grid(h, eo + 1));
  }

  lemma GridAdvances(h: Input, eo: nat)
    ensures Grid(h, eo + 1) == Grid(h, eo) + h.clockTick
  {
  }

  // ----- overflow -----

  /** The longest a frame may stay in the buffer, in ticks. */
  function LongestStay(h: Input): real { MaxReal(h.Cpb(), h.initCpbRemovalDelay) }

  function Capacity(h: Input): real { TimesRate(h, LongestStay(h)) / 90000.0 }

  /** In CBR no frame after the first is due later than a buffer length after its first bit. */
  ghost predicate Fits(h: Input, s: State, eo: nat) {
    h.cbr && eo > 0 ==> TimesRate(h, Grid(h, eo)) - s.prevFinalArrival <= TimesRate(h, h.Cpb())
  }

  /** A frame of at least the minimum leaves room for the bits that follow it. */
  lemma MinKeepsFitting(h: Input, s: State, eo: nat, f: Frame)
    requires h.Valid() && Sound(h, s, eo)
    requires f.bits >= MinFrameSize(h, s, eo)
    ensures Fits(h, Step(h, s, eo, f), eo + 1)
  {
    hide TimesRate, Delay, Removal, OnGrid;
    if h.cbr {
      DelayMeaning(h, s, eo);
      GridAdvances(h, eo);
      var delay := Delay(h, s, eo) as real;
      var excess := delay + h.clockTick + 16.0 - h.Cpb();
      RateSum(h, Grid(h, eo), h.clockTick);
      RateSum(h, delay + 1.0, h.clockTick);
      RateOrder(h, delay + 1.0 + h.clockTick, h.Cpb());
      RateScaled(h, excess);
      RateSum(h, excess, h.Cpb());
      RateSum(h, delay + 1.0 + h.clockTick, 15.0);
      OneBitPerSecond(h);
    }
  }

  /** The 15 ticks left after rounding outweigh the 0.00001 bit lost by the query's upward rounding. */
  lemma OneBitPerSecond(h: Input)
    requires h.Valid()
    ensures 0.9 <= TimesRate(h, 15.0)
  {
  }

  /** The stay of every frame is bounded: by the initial delay for frame 0, by the buffer afterwards. */
  lemma StayIsBounded(h: Input, s: State, eo: nat, f: Frame)
    requires h.Valid() && Sound(h, s, eo) && Fits(h, s, eo)
    ensures Unit(h, s, eo, f).removal - Unit(h, s, eo, f).arrival <= Capacity(h)
  {
    hide TimesRate, Delay, Removal, OnGrid;
    DelayMeaning(h, s, eo);
    NominalTimeDoesNotDrift(h, s, eo, f.sei);
    var delay, removal := Delay(h, s, eo) as real, Grid(h, eo);
    RateOrder(h, h.Cpb(), LongestStay(h));
    RateOrder(h, h.initCpbRemovalDelay, LongestStay(h));
    RateSum(h, removal, delay);
    RateSum(h, removal, h.Cpb());
    if eo == 0 {
      FirstDelay(h, s);
    }
    RateOrder(h, delay, LongestStay(h));
  }

  lemma FirstDelay(h: Input, s: State)
    requires h.Valid()
    ensures Delay(h, s, 0) == h.initCpbRemovalDelay.Floor
    ensures Grid(h, 0) == h.initCpbRemovalDelay
  {
  }

  /** Arrivals are consecutive and take as long as the frame has bits. */
  lemma UnitIsSerial(h: Input, s: State, eo: nat, f: Frame)
    requires h.Valid()
    ensures var u := Unit(h, s, eo, f);
            && s.prevFinalArrival / 90000.0 <= u.arrival
            && u.final == u.arrival + u.bits as real
            && u.final == Step(h, s, eo, f).prevFinalArrival / 90000.0
  {
  }

  /** C.2.2: in CBR the channel never pauses; in VBR a frame's bits wait at most the reported delay if it opens
      a buffering period, and at most the buffer length otherwise. Times are in ticks multiplied by the bit rate. */
  lemma ArrivalMeaning(h: Input, s: State, eo: nat, sei: bool)
    requires h.Valid()
    ensures h.cbr ==> ArrivalStart(h, s, eo, sei) == s.prevFinalArrival
    ensures !h.cbr ==>
      Cpb.IsEarliestArrival(ArrivalStart(h, s, eo, sei), s.prevFinalArrival, TimesRate(h, Removal(h, s, eo, sei)),
                            TimesRate(h, if sei then Delay(h, s, eo) as real else h.Cpb()))
  {
    hide TimesRate, Delay, Removal;
    RateSum(h, Removal(h, s, eo, sei), if sei then Delay(h, s, eo) as real else h.Cpb());
  }

  /** With the configured initial fullness inside the buffer, the schedule is held to exactly the buffer. */
  lemma CapacityOfBuffer(p: Params)
    requires p.Valid()
    ensures 0.0 <= Capacity(FromParams(p))
    ensures p.initialDelayInBytes <= p.bufferSizeInBytes ==>
              && Capacity(FromParams(p)) <= (8 * p.bufferSizeInBytes) as real
              && FromParams(p).initCpbRemovalDelay.Floor <= FromParams(p).cpbSize90k
  {
    hide TimesRate;
    InitMeaning(p);
    var h := FromParams(p);
    RateScaled(h, 0.0);
    RateOrder(h, 0.0, LongestStay(h));
    RateOrder(h, h.initCpbRemovalDelay, h.Cpb() + 1.0);
  }

  /** The reported delay is within the buffer, delay plus offset is the buffer length, and no admissible
      frame is larger than the buffer. */
  lemma QueriesWithinBuffer(p: Params, s: State, eo: nat)
    requires p.Valid() && p.initialDelayInBytes <= p.bufferSizeInBytes
    requires Sound(FromParams(p), s, eo) && Fits(FromParams(p), s, eo)
    ensures var h := FromParams(p);
            && 0 <= Delay(h, s, eo) <= h.cpbSize90k
            && 0 <= DelayOffset(h, s, eo)
            && Delay(h, s, eo) + DelayOffset(h, s, eo) == h.cpbSize90k
            && MaxFrameSize(h, s, eo) <= 8 * p.bufferSizeInBytes
  {
    hide TimesRate, Delay, OnGrid, FromParams;
    var h := FromParams(p);
    InitMeaning(p);
    CapacityOfBuffer(p);
    DelayMeaning(h, s, eo);
    if eo == 0 {
      FirstDelay(h, s);
    }
    RateOrder(h, h.Cpb(), Delay(h, s, eo) as real);
    RateScaled(h, Delay(h, s, eo) as real);
  }

  // ----- a legal size always exists -----

  /** The buffer holds one frame interval, 16 ticks, a bit and `spare` more. */
  ghost predicate Roomy(h: Input, spare: nat) {
    0.99999 + spare as real <= TimesRate(h, (h.Cpb() - h.clockTick - 16.0) / 90000.0)
  }

  /** In every state a run can reach, some frame size passes both queries, and so do `spare` bits more than the
      minimum if there is one. */
  lemma LegalSizeExists(h: Input, s: State, eo: nat, spare: nat)
    requires h.Valid() && Sound(h, s, eo)
    requires h.cbr ==> Roomy(h, spare)
    ensures 0 <= MinFrameSize(h, s, eo) <= MaxFrameSize(h, s, eo)
    ensures MinFrameSize(h, s, eo) > 0 ==> MinFrameSize(h, s, eo) + spare <= MaxFrameSize(h, s, eo)
  {
    hide TimesRate, Delay, OnGrid;
    CastsAreDefined(h, s, eo);
    RateSum(h, Delay(h, s, eo) as real / 90000.0, (h.Cpb() - h.clockTick - 16.0) / 90000.0);
  }

  // ----- the class -----

  class HevcHrd {
    var hrdInput: Input
    var prevAuCpbRemovalDelayMinus1: int
    var prevAuCpbRemovalDelayMsb: nat
    var prevAuFinalArrivalTime: real
    var prevBpAuNominalRemovalTime: real
    var prevBpEncOrder: nat

    ghost predicate Valid()
      reads this
    {
      hrdInput.Valid()
    }

    function Abstract(): State
      reads this
    {
      State(prevAuCpbRemovalDelayMinus1, prevAuCpbRemovalDelayMsb,
            prevAuFinalArrivalTime, prevBpAuNominalRemovalTime, prevBpEncOrder)
    }

    constructor (p: Params)
      requires p.Valid()
      ensures Valid()
      ensures hrdInput == FromParams(p) && Abstract() == InitialState(hrdInput)
    {
      hrdInput := FromParams(p);
      prevAuCpbRemovalDelayMinus1 := -1;
      prevAuCpbRemovalDelayMsb := 0;
      prevAuFinalArrivalTime := 0.0;
      new;
      InitMeaning(p);
      prevBpAuNominalRemovalTime := hrdInput.initCpbRemovalDelay.Floor as real;
      prevBpEncOrder := 0;
    }

    method Update(sizeInBits: nat, eo: nat, sei: bool)
      requires Valid()
      modifies this
      ensures Valid() && hrdInput == old(hrdInput)
      ensures Abstract() == Step(hrdInput, old(Abstract()), eo, Frame(sizeInBits, sei))
    {
      hide TimesRate, Delay, Intervals, U32;
      var auNominalRemovalTime := hrdInput.initCpbRemovalDelay; // (C-9)
      var initCpbRemovalDelay := GetInitCpbRemovalDelay(eo);
      if eo > 0 {
        var auCpbRemovalDelayMinus1 := U32(U32(eo - prevBpEncOrder) - 1);
        var auCpbRemovalDelayMsb := 0;
        if !sei && U32(eo - prevBpEncOrder) != 1 {
          auCpbRemovalDelayMsb :=
            if I32(auCpbRemovalDelayMinus1) <= prevAuCpbRemovalDelayMinus1
            then U32(prevAuCpbRemovalDelayMsb + hrdInput.maxCpbRemovalDelay)
            else prevAuCpbRemovalDelayMsb;
        }
        prevAuCpbRemovalDelayMsb := auCpbRemovalDelayMsb;
        prevAuCpbRemovalDelayMinus1 := I32(auCpbRemovalDelayMinus1);
        var auCpbRemovalDelayValMinus1 := U32(auCpbRemovalDelayMsb + auCpbRemovalDelayMinus1);
        auNominalRemovalTime :=
          prevBpAuNominalRemovalTime + Intervals(hrdInput, U32(auCpbRemovalDelayValMinus1 + 1));
      }
      var initArrivalTime := prevAuFinalArrivalTime;
      if !hrdInput.cbr {
        var initArrivalEarliestTime :=
          if sei then auNominalRemovalTime - initCpbRemovalDelay as real else auNominalRemovalTime - hrdInput.Cpb();
        initArrivalTime := MaxReal(prevAuFinalArrivalTime, TimesRate(hrdInput, initArrivalEarliestTime));
      }
      prevAuFinalArrivalTime := initArrivalTime + sizeInBits as real * 90000.0;
      if sei {
        prevBpAuNominalRemovalTime := auNominalRemovalTime;
        prevBpEncOrder := eo;
      }
    }

    function GetInitCpbRemovalDelay(eo: nat): int
      requires Valid()
      reads this
    {
      Delay(hrdInput, Abstract(), eo)
    }

    function GetInitCpbRemovalDelayOffset(eo: nat): int
      requires Valid()
      reads this
    {
      DelayOffset(hrdInput, Abstract(), eo)
    }

    function GetMaxFrameSizeInBits(eo: nat, sei: bool): int
      requires Valid()
      reads this
    {
      MaxFrameSize(hrdInput, Abstract(), eo)
    }

    function GetMinFrameSizeInBits(eo: nat, sei: bool): int
      requires Valid()
      reads this
    {
      MinFrameSize(hrdInput, Abstract(), eo)
    }
  }
}
