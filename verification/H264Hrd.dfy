/** The H.264 reference decoder of the rate controller (C.1.1, C.1.2 and C.3 of ITU-T H.264):
    a leaky bucket that records coded frames and reports the sizes the next frame may have. */
module H264Hrd {
  import opened Numeric
  import opened HrdInput
  import Cpb

  /** Nominal removal time of the next frame and final arrival time of the previous one, in seconds. */
  datatype State = State(trn: real, taf: real)

  // ----- the decoder's operations as functions -----

  /** After `Init` the clock tick is in seconds; every other field keeps its unit. */
  function InputOf(p: Params): (h: Input)
    requires p.Valid()
    ensures h.Valid() && h.cbr == p.cbr
  {
    InitMeaning(p);
    var h := FromParams(p);
    h.(clockTick := h.clockTick * (1.0 / 90000.0))
  }

  function InitialState(h: Input): State {
    var s := State(h.initCpbRemovalDelay / 90000.0, 0.0);
    State(Delay(h, s) as real / 90000.0, 0.0)
  }

  /** In CBR a whole, positive number of ticks survives the rounding. */
  lemma InitialStateIntegral(h: Input)
    requires h.cbr
    requires h.initCpbRemovalDelay == h.initCpbRemovalDelay.Floor as real >= 1.0
    ensures InitialState(h) == State(h.initCpbRemovalDelay / 90000.0, 0.0)
  {
    var init := h.initCpbRemovalDelay;
    var s := State(init / 90000.0, 0.0);
    assert 90000.0 * MaxReal(0.0, s.trn - s.taf) + 0.5 == init + 0.5;
    assert (init + 0.5).Floor == init.Floor;
    assert Delay(h, s) == init.Floor;
  }

  lemma InputOfFields(p: Params)
    requires p.Valid()
    ensures InputOf(p).cbr == p.cbr
    ensures InputOf(p).initCpbRemovalDelay == FromParams(p).initCpbRemovalDelay
  {
    hide Quotient;
  }

  lemma InputOfRates(p: Params)
    requires p.Valid()
    ensures var h := InputOf(p);
            && h.Valid() && h.cbr == p.cbr
            && TimesRate(h, h.initCpbRemovalDelay) == 720000.0 * p.initialDelayInBytes as real
            && TimesRate(h, 1.0) == p.maxbps as real == h.Rate()
  {
    InitMeaning(p);
  }

  /** Initial removal delay in 90 kHz ticks, rounded to nearest, at least 1, capped by the buffer in VBR. */
  function Delay(h: Input, s: State): int {
    var delay := (90000.0 * MaxReal(0.0, s.trn - s.taf) + 0.5).Floor;
    if delay == 0 then 1
    else if delay > h.cpbSize90k && !h.cbr then h.cpbSize90k
    else delay
  }

  /** The reported delay is the time from the previous arrival to the removal, rounded to nearest but at least a tick,
      and in VBR the buffer length if that is less. */
  lemma DelayIsExact(h: Input, s: State)
    requires 1 <= h.cpbSize90k
    ensures var ticks, delay := 90000.0 * (s.trn - s.taf), Delay(h, s);
            && 1 <= delay && (delay == 1 || delay as real <= ticks + 0.5)
            && (ticks - 0.5 < delay as real || (!h.cbr && delay == h.cpbSize90k))
            && (!h.cbr ==> delay <= h.cpbSize90k)
  {
  }

  function DelayOffset(h: Input, s: State): int {
    h.cpbSize90k - Delay(h, s)
  }

  /** When the first bit of the next frame arrives. */
  function ArrivalStart(h: Input, s: State, sei: bool): real {
    var earliest := s.trn - (if sei then Delay(h, s) as real else h.Cpb()) / 90000.0;
    if h.cbr then s.taf else MaxReal(s.taf, earliest)
  }

  function MaxFrameSize(h: Input, s: State, sei: bool): int {
    TimesRate(h, s.trn - ArrivalStart(h, s, sei)).Floor
  }

  function MinFrameSize(h: Input, s: State): int {
    var excess := Delay(h, s) as real + h.clockTick * 90000.0 - h.Cpb();
    if !h.cbr || excess < 0.0 then 0
    else TimesRate(h, excess / 90000.0).Floor + 16
  }

  /** In CBR the minimum is 16 bits more than what would arrive beyond the buffer length by the removal after the next,
      rounded down, and nothing if that does not reach it; in VBR there is none. */
  lemma MinIsExact(h: Input, s: State)
    requires h.Valid()
    ensures var beyond := Delay(h, s) as real + h.clockTick * 90000.0 - h.Cpb();
            var least := MinFrameSize(h, s);
            && (!h.cbr || beyond < 0.0 ==> least == 0)
            && (h.cbr && beyond >= 0.0 ==>
                  least as real - 16.0 <= TimesRate(h, beyond) / 90000.0 < least as real - 15.0)
  {
    hide TimesRate, Delay;
    RateScaled(h, Delay(h, s) as real + h.clockTick * 90000.0 - h.Cpb());
  }

  function Step(h: Input, s: State, f: Frame): State
    requires h.Valid()
  {
    State(s.trn + h.clockTick, ArrivalStart(h, s, f.sei) + OverRate(h, f.bits as real))
  }

  /** The frame as the coded picture buffer sees it, in bit times. */
  function Unit(h: Input, s: State, f: Frame): Cpb.AccessUnit
    requires h.Valid()
  {
    Cpb.AccessUnit(
      TimesRate(h, ArrivalStart(h, s, f.sei)),
      TimesRate(h, Step(h, s, f).taf),
      TimesRate(h, s.trn),
      f.bits)
  }

  // ----- underflow -----

  /** The previous frame had arrived by the time the next one is due. */
  ghost predicate InTime(s: State) { s.taf <= s.trn }

  lemma InitialStateInTime(h: Input)
    requires h.Valid()
    ensures InTime(InitialState(h))
  {
  }

  /** The maximum query is exact: a frame arrives in time if and only if it is no larger. */
  lemma MaxIsExact(h: Input, s: State, f: Frame)
    requires h.Valid()
    ensures f.bits <= MaxFrameSize(h, s, f.sei) <==> Step(h, s, f).taf <= s.trn
  {
    hide TimesRate, OverRate, ArrivalStart;
    var arrival := ArrivalStart(h, s, f.sei);
    RateOrder(h, OverRate(h, f.bits as real), s.trn - arrival);
  }

  /** A frame within the maximum arrives completely before it is removed. */
  lemma MaxKeepsInTime(h: Input, s: State, f: Frame)
    requires h.Valid()
    requires f.bits <= MaxFrameSize(h, s, f.sei)
    ensures InTime(Step(h, s, f))
    ensures Unit(h, s, f).final <= Unit(h, s, f).removal
  {
    hide TimesRate, OverRate, ArrivalStart;
    MaxIsExact(h, s, f);
    RateOrder(h, Step(h, s, f).taf, s.trn);
  }

  /** Every unsigned cast of the queries sees a non-negative operand. */
  lemma CastsAreDefined(h: Input, s: State, sei: bool)
    requires h.Valid() && InTime(s)
    ensures 0 <= Delay(h, s)
    ensures 0 <= MaxFrameSize(h, s, sei) && 0 <= MinFrameSize(h, s)
  {
    hide TimesRate;
    var excess := Delay(h, s) as real + h.clockTick * 90000.0 - h.Cpb();
    RateOrder(h, 0.0, s.trn - ArrivalStart(h, s, sei));
    RateOrder(h, 0.0, excess / 90000.0);
    RateScaled(h, 0.0);
  }

  // ----- overflow -----

  /** The longest the next frame may stay in the buffer, in ticks. The reported delay is rounded
      to nearest, so in CBR the exact delay can exceed the buffer by less than half a tick. */
  function LongestStay(h: Input): real {
    h.Cpb() + if h.cbr then 0.5 else 0.0
  }

  function Capacity(h: Input): real { TimesRate(h, LongestStay(h) / 90000.0) }

  /** In CBR the next frame's delay, rounded, is within the buffer. */
  ghost predicate Fits(h: Input, s: State) {
    && 1 <= h.cpbSize90k
    && (h.cbr ==> 90000.0 * (s.trn - s.taf) < h.Cpb() + 0.5)
  }

  /** `Fits` says exactly that the reported delay is within the buffer. */
  lemma FitsMeaning(h: Input, s: State)
    requires h.Valid() && 1 <= h.cpbSize90k
    ensures Fits(h, s) <==> 1 <= Delay(h, s) <= h.cpbSize90k
  {
  }

  /** The first delay reported is the initial delay rounded to nearest, at least a tick. */
  lemma FirstDelay(h: Input)
    requires h.Valid() && h.cbr
    ensures Delay(h, InitialState(h)) == MaxInt(1, (h.initCpbRemovalDelay + 0.5).Floor)
    ensures InitialState(h).trn * 90000.0 == Delay(h, InitialState(h)) as real && InitialState(h).taf == 0.0
  {
    var s := State(h.initCpbRemovalDelay / 90000.0, 0.0);
    assert 90000.0 * MaxReal(0.0, s.trn - s.taf) + 0.5 == h.initCpbRemovalDelay + 0.5;
    var ticks := Delay(h, s);
    assert ticks == MaxInt(1, (h.initCpbRemovalDelay + 0.5).Floor);
    assert InitialState(h) == State(ticks as real / 90000.0, 0.0);
    DelayOfWholeTicks(h, ticks);
  }

  lemma DelayOfWholeTicks(h: Input, ticks: int)
    requires h.cbr && ticks >= 1
    ensures Delay(h, State(ticks as real / 90000.0, 0.0)) == ticks
  {
    assert (ticks as real + 0.5).Floor == ticks;
  }

  /** The first delay is within the buffer exactly if the initial delay, rounded, is; in VBR it is capped. */
  lemma InitialStateFits(h: Input)
    requires h.Valid() && 1 <= h.cpbSize90k
    ensures Fits(h, InitialState(h)) <==> (h.cbr ==> (h.initCpbRemovalDelay + 0.5).Floor <= h.cpbSize90k)
  {
    hide Delay, InitialState;
    if h.cbr {
      FirstDelay(h);
    }
  }

  /** A frame of at least the minimum leaves room for the bits that follow it, even where there was none before. */
  lemma MinKeepsFitting(h: Input, s: State, f: Frame)
    requires h.Valid() && 1 <= h.cpbSize90k
    requires f.bits >= MinFrameSize(h, s)
    ensures Fits(h, Step(h, s, f))
  {
    hide TimesRate, OverRate;
    if h.cbr {
      var excess := Delay(h, s) as real + h.clockTick * 90000.0 - h.Cpb();
      RateScaled(h, 0.0);
      RateOrder(h, excess / 90000.0, OverRate(h, f.bits as real));
      RateOrder(h, 0.0, OverRate(h, f.bits as real));
    }
  }

  /** In VBR arrival never starts more than a buffer length before removal; in CBR `Fits` bounds it. */
  lemma StayIsBounded(h: Input, s: State, f: Frame)
    requires h.Valid() && Fits(h, s)
    ensures TimesRate(h, s.trn - ArrivalStart(h, s, f.sei)) <= Capacity(h)
    ensures Unit(h, s, f).removal - Unit(h, s, f).arrival <= Capacity(h)
  {
    hide TimesRate;
    RateOrder(h, s.trn - ArrivalStart(h, s, f.sei), LongestStay(h) / 90000.0);
    RateSum(h, s.trn, ArrivalStart(h, s, f.sei));
  }

  /** Arrivals are consecutive and take as long as the frame has bits. */
  lemma UnitIsSerial(h: Input, s: State, f: Frame)
    requires h.Valid()
    ensures var u := Unit(h, s, f);
            && TimesRate(h, s.taf) <= u.arrival
            && u.final == u.arrival + u.bits as real
            && u.final == TimesRate(h, Step(h, s, f).taf)
  {
    hide TimesRate, OverRate;
    var arrival := ArrivalStart(h, s, f.sei);
    RateOrder(h, s.taf, arrival);
    RateSum(h, arrival, OverRate(h, f.bits as real));
  }

  /** C.1.1: in CBR the channel never pauses; in VBR a frame's bits wait at most the reported delay if it opens
      a buffering period, and at most the buffer length otherwise. */
  lemma ArrivalMeaning(h: Input, s: State, sei: bool)
    ensures h.cbr ==> ArrivalStart(h, s, sei) == s.taf
    ensures !h.cbr ==>
      Cpb.IsEarliestArrival(ArrivalStart(h, s, sei), s.taf, s.trn,
                            (if sei then Delay(h, s) as real else h.Cpb()) / 90000.0)
  {
    hide Delay;
  }

  /** The buffer the schedule is held to is the configured one, plus half a tick of bits in CBR. */
  lemma CapacityOfBuffer(p: Params)
    requires p.Valid()
    ensures var h := InputOf(p);
            0.0 <= Capacity(h) <= (8 * p.bufferSizeInBytes) as real + if h.cbr then h.Rate() / 180000.0 else 0.0
  {
    InitMeaning(p);
    var h := InputOf(p);
    RateScaled(h, LongestStay(h));
    RateOrder(h, 0.0, LongestStay(h));
  }

  /** The reported delay is within the buffer, delay plus offset is the buffer length, and no admissible
      frame is larger than the buffer (up to the half tick of rounding in CBR). */
  lemma QueriesWithinBuffer(p: Params, s: State, f: Frame)
    requires p.Valid() && Fits(InputOf(p), s)
    ensures var h := InputOf(p);
            && 1 <= Delay(h, s) <= h.cpbSize90k
            && 0 <= DelayOffset(h, s)
            && Delay(h, s) + DelayOffset(h, s) == h.cpbSize90k
            && MaxFrameSize(h, s, f.sei) as real
               <= (8 * p.bufferSizeInBytes) as real + if h.cbr then h.Rate() / 180000.0 else 0.0
  {
    hide TimesRate, ArrivalStart;
    FitsMeaning(InputOf(p), s);
    StayIsBounded(InputOf(p), s, f);
    CapacityOfBuffer(p);
  }

  /** The first frame is due within a tick of the initial delay, or in VBR after the buffer length if that is less. */
  lemma FirstRemoval(h: Input, f: Frame)
    requires h.Valid()
    ensures var due := InitialState(h).trn * 90000.0;
            && due <= h.initCpbRemovalDelay + 1.0
            && (h.cbr ==> h.initCpbRemovalDelay - 1.0 <= due)
            && (!h.cbr && 1 <= h.cpbSize90k ==> MinReal(h.initCpbRemovalDelay - 1.0, h.Cpb()) <= due <= h.Cpb())
            && Unit(h, InitialState(h), f).removal == TimesRate(h, due) / 90000.0
  {
    hide Step;
    RateScaled(h, InitialState(h).trn * 90000.0);
  }

  // ----- a legal size always exists -----

  /** The buffer holds one frame interval, a tick, and half a tick, 16 bits and `spare` more. */
  ghost predicate Roomy(h: Input, spare: nat) {
    && h.clockTick * 90000.0 + 1.0 < h.Cpb()
    && 16.0 + spare as real <= TimesRate(h, (h.Cpb() - h.clockTick * 90000.0 - 0.5) / 90000.0)
  }

  /** In every state a run can reach, some frame size passes both queries, and so do `spare` bits more than the
      minimum if there is one. */
  lemma LegalSizeExists(h: Input, s: State, sei: bool, spare: nat)
    requires h.Valid() && InTime(s)
    requires h.cbr ==> Roomy(h, spare)
    ensures 0 <= MinFrameSize(h, s) <= MaxFrameSize(h, s, sei)
    ensures MinFrameSize(h, s) > 0 ==> MinFrameSize(h, s) + spare <= MaxFrameSize(h, s, sei)
  {
    hide TimesRate;
    CastsAreDefined(h, s, sei);
    if h.cbr {
      var excess := Delay(h, s) as real + h.clockTick * 90000.0 - h.Cpb();
      if excess >= 0.0 {
        var room := (h.Cpb() - h.clockTick * 90000.0 - 0.5) / 90000.0;
        RateSum(h, s.trn - s.taf, room);
        RateOrder(h, excess / 90000.0, s.trn - s.taf - room);
      }
    }
  }

  // ----- the class -----

  class H264Hrd {
    var hrdInput: Input
    var trnCur: real
    var tafPrv: real

    ghost predicate Valid()
      reads this
    {
      hrdInput.Valid()
    }

    function Abstract(): State
      reads this
    {
      State(trnCur, tafPrv)
    }

    constructor (p: Params)
      requires p.Valid()
      ensures Valid()
      ensures hrdInput == InputOf(p) && Abstract() == InitialState(hrdInput)
    {
      hrdInput := FromParams(p);
      new;
      InitMeaning(p);
      hrdInput := hrdInput.(clockTick := hrdInput.clockTick * (1.0 / 90000.0));
      tafPrv := 0.0;
      trnCur := hrdInput.initCpbRemovalDelay / 90000.0;
      trnCur := GetInitCpbRemovalDelay(0) as real / 90000.0;
    }

    method Update(sizeInBits: nat, eo: nat, sei: bool)
      requires Valid()
      modifies this
      ensures Valid() && hrdInput == old(hrdInput)
      ensures Abstract() == Step(hrdInput, old(Abstract()), Frame(sizeInBits, sei))
    {
      var initDelay := GetInitCpbRemovalDelay(eo);
      var taiEarliest := if sei then trnCur - initDelay as real / 90000.0 else trnCur - hrdInput.Cpb() / 90000.0;
      var taiCur := if !hrdInput.cbr then MaxReal(tafPrv, taiEarliest) else tafPrv;
      tafPrv := taiCur + OverRate(hrdInput, sizeInBits as real);
      trnCur := trnCur + hrdInput.clockTick;
    }

    function GetInitCpbRemovalDelay(eo: nat): int
      reads this
    {
      Delay(hrdInput, Abstract())
    }

    function GetInitCpbRemovalDelayOffset(eo: nat): int
      reads this
    {
      DelayOffset(hrdInput, Abstract())
    }

    function GetMaxFrameSizeInBits(eo: nat, sei: bool): int
      reads this
    {
      MaxFrameSize(hrdInput, Abstract(), sei)
    }

    function GetMinFrameSizeInBits(eo: nat, sei: bool): int
      reads this
    {
      MinFrameSize(hrdInput, Abstract())
    }
  }
}
