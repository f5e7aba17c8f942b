/** The reference decoder of either codec behind one interface, and what whole runs of frames keep. */
module Hrd {
  import opened Numeric
  import opened HrdInput
  import Cpb
  import H264Hrd
  import HevcHrd

  datatype Codec = AVC | HEVC

  datatype Hrd = Avc(h: Input, avc: H264Hrd.State) | Hevc(h: Input, hevc: HevcHrd.State)

  function Init(codec: Codec, p: Params): (hrd: Hrd)
    requires p.Valid()
    ensures hrd.h.Valid() && (hrd.Avc? <==> codec == AVC)
  {
    InitMeaning(p);
    match codec
    case AVC => Avc(H264Hrd.InputOf(p), H264Hrd.InitialState(H264Hrd.InputOf(p)))
    case HEVC => Hevc(FromParams(p), HevcHrd.InitialState(FromParams(p)))
  }

  function Delay(hrd: Hrd, eo: nat): int
    requires hrd.h.Valid()
  {
    match hrd
    case Avc(h, s) => H264Hrd.Delay(h, s)
    case Hevc(h, s) => HevcHrd.Delay(h, s, eo)
  }

  function DelayOffset(hrd: Hrd, eo: nat): int
    requires hrd.h.Valid()
  {
    match hrd
    case Avc(h, s) => H264Hrd.DelayOffset(h, s)
    case Hevc(h, s) => HevcHrd.DelayOffset(h, s, eo)
  }

  function MaxFrameSize(hrd: Hrd, eo: nat, sei: bool): int
    requires hrd.h.Valid()
  {
    match hrd
    case Avc(h, s) => H264Hrd.MaxFrameSize(h, s, sei)
    case Hevc(h, s) => HevcHrd.MaxFrameSize(h, s, eo)
  }

  function MinFrameSize(hrd: Hrd, eo: nat, sei: bool): int
    requires hrd.h.Valid()
  {
    match hrd
    case Avc(h, s) => H264Hrd.MinFrameSize(h, s)
    case Hevc(h, s) => HevcHrd.MinFrameSize(h, s, eo)
  }

  function Step(hrd: Hrd, eo: nat, f: Frame): (hrd': Hrd)
    requires hrd.h.Valid()
    ensures hrd'.h == hrd.h && hrd'.Avc? == hrd.Avc?
  {
    match hrd
    case Avc(h, s) => Avc(h, H264Hrd.Step(h, s, f))
    case Hevc(h, s) => Hevc(h, HevcHrd.Step(h, s, eo, f))
  }

  function Unit(hrd: Hrd, eo: nat, f: Frame): Cpb.AccessUnit
    requires hrd.h.Valid()
  {
    match hrd
    case Avc(h, s) => H264Hrd.Unit(h, s, f)
    case Hevc(h, s) => HevcHrd.Unit(h, s, eo, f)
  }

  // ----- runs: frames with consecutive encode orders from `eo` -----

  function After(hrd: Hrd, eo: nat, frames: seq<Frame>): (hrd': Hrd)
    requires hrd.h.Valid()
    ensures hrd'.h == hrd.h && hrd'.Avc? == hrd.Avc?
    decreases |frames|
  {
    if frames == [] then hrd else After(Step(hrd, eo, frames[0]), eo + 1, frames[1..])
  }

  function Schedule(hrd: Hrd, eo: nat, frames: seq<Frame>): seq<Cpb.AccessUnit>
    requires hrd.h.Valid()
    decreases |frames|
  {
    if frames == [] then []
    else [Unit(hrd, eo, frames[0])] + Schedule(Step(hrd, eo, frames[0]), eo + 1, frames[1..])
  }

  predicate WithinMax(hrd: Hrd, eo: nat, f: Frame)
    requires hrd.h.Valid()
  {
    f.bits <= MaxFrameSize(hrd, eo, f.sei)
  }

  predicate WithinMin(hrd: Hrd, eo: nat, f: Frame)
    requires hrd.h.Valid()
  {
    f.bits >= MinFrameSize(hrd, eo, f.sei)
  }

  predicate EachWithinMax(hrd: Hrd, eo: nat, frames: seq<Frame>)
    requires hrd.h.Valid()
    decreases |frames|
  {
    frames == []
    || (WithinMax(hrd, eo, frames[0]) && EachWithinMax(Step(hrd, eo, frames[0]), eo + 1, frames[1..]))
  }

  predicate EachWithinMin(hrd: Hrd, eo: nat, frames: seq<Frame>)
    requires hrd.h.Valid()
    decreases |frames|
  {
    frames == []
    || (WithinMin(hrd, eo, frames[0]) && EachWithinMin(Step(hrd, eo, frames[0]), eo + 1, frames[1..]))
  }

  /** A stream opens with a buffering period and encode orders stay in the signed 32-bit range. */
  predicate IsStream(eo: nat, frames: seq<Frame>) {
    eo + |frames| <= HevcHrd.MAX_ORDER && (eo == 0 && frames != [] ==> frames[0].sei)
  }

  /** Both queries hold for each frame in turn. */
  predicate Conforms(hrd: Hrd, eo: nat, frames: seq<Frame>)
    requires hrd.h.Valid()
  {
    EachWithinMax(hrd, eo, frames) && EachWithinMin(hrd, eo, frames)
  }

  /** A run in two parts. */
  lemma {:induction false} RunOfParts(hrd: Hrd, eo: nat, a: seq<Frame>, b: seq<Frame>)
    requires hrd.h.Valid()
    ensures After(hrd, eo, a + b) == After(After(hrd, eo, a), eo + |a|, b)
    ensures Schedule(hrd, eo, a + b) == Schedule(hrd, eo, a) + Schedule(After(hrd, eo, a), eo + |a|, b)
    ensures Conforms(hrd, eo, a + b) <==> Conforms(hrd, eo, a) && Conforms(After(hrd, eo, a), eo + |a|, b)
    decreases |a|
  {
    hide Step, Unit, WithinMax, WithinMin;
    if a == [] {
      assert a + b == b;
    } else {
      RunOfParts(Step(hrd, eo, a[0]), eo + 1, a[1..], b);
      assert (a + b)[1..] == a[1..] + b;
    }
  }

  // ----- what one step keeps -----

  /** Every frame recorded so far arrived in time, and the state is what consecutive frames leave behind. */
  ghost predicate Sound(hrd: Hrd, eo: nat)
    requires hrd.h.Valid()
  {
    match hrd
    case Avc(h, s) => H264Hrd.InTime(s)
    case Hevc(h, s) => HevcHrd.Sound(h, s, eo)
  }

  /** The bits that can still arrive before the next removal fit the buffer. */
  ghost predicate Fits(hrd: Hrd, eo: nat)
    requires hrd.h.Valid()
  {
    match hrd
    case Avc(h, s) => H264Hrd.Fits(h, s)
    case Hevc(h, s) => HevcHrd.Fits(h, s, eo)
  }

  /** In bits. */
  function Capacity(avc: bool, h: Input): real {
    if avc then H264Hrd.Capacity(h) else HevcHrd.Capacity(h)
  }

  /** When the previous frame had completely arrived, in bit times. */
  function ArrivedUntil(hrd: Hrd): real {
    match hrd
    case Avc(h, s) => TimesRate(h, s.taf)
    case Hevc(h, s) => s.prevFinalArrival / 90000.0
  }

  lemma CastsAreDefined(hrd: Hrd, eo: nat, sei: bool)
    requires hrd.h.Valid() && Sound(hrd, eo)
    ensures 0 <= Delay(hrd, eo) && 0 <= MaxFrameSize(hrd, eo, sei) && 0 <= MinFrameSize(hrd, eo, sei)
  {
    hide TimesRate, H264Hrd.Delay, HevcHrd.Delay, HevcHrd.MaxFrameSize, H264Hrd.MaxFrameSize;
    match hrd {
      case Avc(h, s) => H264Hrd.CastsAreDefined(h, s, sei);
      case Hevc(h, s) => HevcHrd.CastsAreDefined(h, s, eo);
    }
  }

  lemma MaxKeepsSound(hrd: Hrd, eo: nat, f: Frame)
    requires hrd.h.Valid() && Sound(hrd, eo) && IsStream(eo, [f])
    requires WithinMax(hrd, eo, f)
    ensures Sound(Step(hrd, eo, f), eo + 1)
    ensures Unit(hrd, eo, f).final <= Unit(hrd, eo, f).removal
  {
    hide H264Hrd.Step, HevcHrd.Step, H264Hrd.Unit, HevcHrd.Unit, H264Hrd.MaxFrameSize, HevcHrd.MaxFrameSize;
    hide H264Hrd.InTime, HevcHrd.Sound;
    match hrd {
      case Avc(h, s) => H264Hrd.MaxKeepsInTime(h, s, f);
      case Hevc(h, s) => HevcHrd.MaxKeepsInTime(h, s, eo, f);
    }
  }

  lemma MinKeepsFitting(hrd: Hrd, eo: nat, f: Frame)
    requires hrd.h.Valid() && Sound(hrd, eo) && Fits(hrd, eo)
    requires WithinMin(hrd, eo, f)
    ensures Fits(Step(hrd, eo, f), eo + 1)
  {
    hide H264Hrd.Step, HevcHrd.Step, H264Hrd.MinFrameSize, HevcHrd.MinFrameSize;
    hide HevcHrd.Fits, HevcHrd.Sound;
    match hrd {
      case Avc(h, s) => H264Hrd.MinKeepsFitting(h, s, f);
      case Hevc(h, s) => HevcHrd.MinKeepsFitting(h, s, eo, f);
    }
  }

  lemma UnitMeaning(hrd: Hrd, eo: nat, f: Frame)
    requires hrd.h.Valid() && Sound(hrd, eo)
    ensures var u := Unit(hrd, eo, f);
            && ArrivedUntil(hrd) <= u.arrival
            && u.final == u.arrival + u.bits as real
            && u.final == ArrivedUntil(Step(hrd, eo, f))
            && (Fits(hrd, eo) ==> u.removal - u.arrival <= Capacity(hrd.Avc?, hrd.h))
  {
    hide H264Hrd.Step, HevcHrd.Step, H264Hrd.Unit, HevcHrd.Unit, TimesRate;
    hide H264Hrd.Fits, HevcHrd.Fits, HevcHrd.Sound, H264Hrd.Capacity, HevcHrd.Capacity;
    match hrd {
      case Avc(h, s) =>
        H264Hrd.UnitIsSerial(h, s, f);
        if Fits(hrd, eo) { H264Hrd.StayIsBounded(h, s, f); }
      case Hevc(h, s) =>
        HevcHrd.UnitIsSerial(h, s, eo, f);
        if Fits(hrd, eo) { HevcHrd.StayIsBounded(h, s, eo, f); }
    }
  }

  // ----- what whole runs keep -----

  /** Frames within the maximum never underflow the buffer. */
  lemma {:induction false} RunNeverUnderflows(hrd: Hrd, eo: nat, frames: seq<Frame>)
    requires hrd.h.Valid() && Sound(hrd, eo) && IsStream(eo, frames)
    requires EachWithinMax(hrd, eo, frames)
    ensures Sound(After(hrd, eo, frames), eo + |frames|)
    ensures Cpb.NeverUnderflows(Schedule(hrd, eo, frames))
    decreases |frames|
  {
    hide Step, Unit, WithinMax, Sound;
    if frames != [] {
      MaxKeepsSound(hrd, eo, frames[0]);
      RunNeverUnderflows(Step(hrd, eo, frames[0]), eo + 1, frames[1..]);
    }
  }

  lemma {:induction false} RunFits(hrd: Hrd, eo: nat, frames: seq<Frame>)
    requires hrd.h.Valid() && Sound(hrd, eo) && IsStream(eo, frames) && Fits(hrd, eo)
    requires EachWithinMax(hrd, eo, frames) && EachWithinMin(hrd, eo, frames)
    ensures Fits(After(hrd, eo, frames), eo + |frames|)
    ensures Cpb.Serial(Schedule(hrd, eo, frames), ArrivedUntil(hrd))
    ensures Cpb.FitsEach(Schedule(hrd, eo, frames), Capacity(hrd.Avc?, hrd.h))
    decreases |frames|
  {
    hide Step, Unit, WithinMax, WithinMin, Sound, Fits, Capacity, ArrivedUntil;
    if frames != [] {
      MaxKeepsSound(hrd, eo, frames[0]);
      MinKeepsFitting(hrd, eo, frames[0]);
      UnitMeaning(hrd, eo, frames[0]);
      RunFits(Step(hrd, eo, frames[0]), eo + 1, frames[1..]);
    }
  }

  /** Frames within both bounds never overflow the buffer, at any instant. In VBR the minimum is 0. */
  lemma {:induction false} RunNeverOverflows(hrd: Hrd, eo: nat, frames: seq<Frame>)
    requires hrd.h.Valid() && Sound(hrd, eo) && IsStream(eo, frames) && Fits(hrd, eo)
    requires 0.0 <= Capacity(hrd.Avc?, hrd.h)
    requires EachWithinMax(hrd, eo, frames) && EachWithinMin(hrd, eo, frames)
    ensures Cpb.NeverOverflows(Schedule(hrd, eo, frames), Capacity(hrd.Avc?, hrd.h))
  {
    RunFits(hrd, eo, frames);
    Cpb.FullnessWithinCapacity(Schedule(hrd, eo, frames), ArrivedUntil(hrd), Capacity(hrd.Avc?, hrd.h));
  }

  /** The configuration starts inside its buffer. For H.264 in CBR, which rounds the initial delay to nearest, that
      is the delay taken half a tick shorter; an initial delay of at most the buffer always is. */
  predicate StartsInside(codec: Codec, p: Params)
    requires p.Valid()
  {
    var h := FromParams(p);
    match codec
    case AVC =>
      && 1 <= h.cpbSize90k
      && (p.cbr ==>
            TimesRate(h, (h.initCpbRemovalDelay + 0.5).Floor as real - 0.5) <= 720000.0 * p.bufferSizeInBytes as real)
    case HEVC => p.initialDelayInBytes <= p.bufferSizeInBytes
  }

  /** The first delay reported is within the buffer, too. */
  predicate FirstDelayFits(codec: Codec, p: Params)
    requires p.Valid()
  {
    var h := FromParams(p);
    match codec
    case AVC => 1 <= h.cpbSize90k && (p.cbr ==> (h.initCpbRemovalDelay + 0.5).Floor <= h.cpbSize90k)
    case HEVC => p.initialDelayInBytes <= p.bufferSizeInBytes
  }

  /** What a configuration starts inside with: a first delay that fits, or an initial delay of at most the buffer,
      which for H.264 must last a tick. */
  lemma StartConditions(codec: Codec, p: Params)
    requires p.Valid()
    ensures FirstDelayFits(codec, p) ==> StartsInside(codec, p)
    ensures p.initialDelayInBytes <= p.bufferSizeInBytes && (codec == AVC ==> 1 <= FromParams(p).cpbSize90k) ==>
              StartsInside(codec, p)
  {
    hide TimesRate, FromParams;
    InitMeaning(p);
    var h := FromParams(p);
    var rounded := (h.initCpbRemovalDelay + 0.5).Floor as real;
    RateOrder(h, rounded - 0.5, h.initCpbRemovalDelay);
    RateOrder(h, rounded - 0.5, h.Cpb());
  }

  /** Room in bits the theorem below grants: the configured buffer, and for H.264 in CBR the bits of
      half a clock tick, because that decoder reports its delay rounded to nearest. */
  function GrantedBits(codec: Codec, p: Params): real {
    (8 * p.bufferSizeInBytes) as real + if codec == AVC && p.cbr then p.maxbps as real / 180000.0 else 0.0
  }

  lemma InitialStateSound(codec: Codec, p: Params)
    requires p.Valid()
    ensures Sound(Init(codec, p), 0)
  {
    hide FromParams, HevcHrd.Sound, HevcHrd.InitialState, H264Hrd.InitialState;
    InitMeaning(p);
    if codec == AVC {
      H264Hrd.InitialStateInTime(H264Hrd.InputOf(p));
    } else {
      HevcHrd.InitialStateSound(FromParams(p));
    }
  }

  lemma InitialStateFits(codec: Codec, p: Params)
    requires p.Valid() && StartsInside(codec, p)
    ensures FirstDelayFits(codec, p) ==> Fits(Init(codec, p), 0)
    ensures 0.0 <= Capacity(codec == AVC, Init(codec, p).h) <= GrantedBits(codec, p)
  {
    hide HevcHrd.InitialState, H264Hrd.InitialState, TimesRate;
    InitMeaning(p);
    if codec == AVC {
      hide H264Hrd.Capacity;
      H264Hrd.InitialStateFits(H264Hrd.InputOf(p));
      H264Hrd.CapacityOfBuffer(p);
    } else {
      hide HevcHrd.Capacity;
      HevcHrd.CapacityOfBuffer(p);
    }
  }

  /** The first frame stays within what is granted. */
  lemma FirstStay(codec: Codec, p: Params, f: Frame)
    requires p.Valid() && StartsInside(codec, p)
    ensures Unit(Init(codec, p), 0, f).removal - Unit(Init(codec, p), 0, f).arrival <= GrantedBits(codec, p)
  {
    hide Unit, Init, Sound, Fits, Capacity, GrantedBits, TimesRate, FromParams;
    InitialStateSound(codec, p);
    InitialStateFits(codec, p);
    if FirstDelayFits(codec, p) {
      UnitMeaning(Init(codec, p), 0, f);
    } else {
      FirstStayRoundedUp(p, f);
    }
  }

  lemma FirstStayRoundedUp(p: Params, f: Frame)
    requires p.Valid() && StartsInside(AVC, p) && p.cbr
    ensures Unit(Init(AVC, p), 0, f).removal - Unit(Init(AVC, p), 0, f).arrival <= GrantedBits(AVC, p)
  {
    hide TimesRate, FromParams, H264Hrd.InitialState, H264Hrd.Delay;
    var h := H264Hrd.InputOf(p);
    InitMeaning(p);
    H264Hrd.FirstDelay(h);
    H264Hrd.InputOfRates(p);
    SameRate(p);
    hide H264Hrd.InputOf;
    var ticks := H264Hrd.Delay(h, H264Hrd.InitialState(h)) as real;
    RateScaled(h, ticks);
    RateSum(h, ticks - 0.5, 0.5);
    HalfATick(p);
    RateOrder(h, ticks - 0.5, h.Cpb());
  }

  lemma SameRate(p: Params)
    requires p.Valid()
    ensures var h, g := H264Hrd.InputOf(p), FromParams(p);
            && h.cpbSize90k == g.cpbSize90k && h.initCpbRemovalDelay == g.initCpbRemovalDelay
            && forall x :: TimesRate(h, x) == TimesRate(g, x)
  {
  }

  lemma HalfATick(p: Params)
    requires p.Valid()
    ensures TimesRate(H264Hrd.InputOf(p), 0.5) == p.maxbps as real / 2.0
  {
  }

  /** From the second frame on the delay fits: a frame of at least the minimum always leaves room. */
  lemma FirstStepFits(codec: Codec, p: Params, f: Frame)
    requires p.Valid() && StartsInside(codec, p) && WithinMin(Init(codec, p), 0, f)
    ensures Fits(Step(Init(codec, p), 0, f), 1)
  {
    hide TimesRate, H264Hrd.Step, HevcHrd.Step, H264Hrd.MinFrameSize, HevcHrd.MinFrameSize, H264Hrd.Fits, HevcHrd.Fits;
    hide H264Hrd.InitialState, HevcHrd.InitialState, HevcHrd.Sound;
    InitialStateSound(codec, p);
    match Init(codec, p) {
      case Avc(h, s) => H264Hrd.MinKeepsFitting(h, s, f);
      case Hevc(h, s) =>
        InitialStateFits(codec, p);
        HevcHrd.MinKeepsFitting(h, s, 0, f);
    }
  }

  /** If the first frame stays within `capacity`, so does every other one once the first has left room. */
  lemma {:induction false} RunStaysWithin(hrd: Hrd, frames: seq<Frame>, capacity: real)
    requires hrd.h.Valid() && Sound(hrd, 0) && IsStream(0, frames) && frames != []
    requires EachWithinMax(hrd, 0, frames) && EachWithinMin(hrd, 0, frames)
    requires Fits(Step(hrd, 0, frames[0]), 1) && Capacity(hrd.Avc?, hrd.h) <= capacity
    requires Unit(hrd, 0, frames[0]).removal - Unit(hrd, 0, frames[0]).arrival <= capacity
    ensures Fits(After(hrd, 0, frames), |frames|)
    ensures Cpb.Serial(Schedule(hrd, 0, frames), ArrivedUntil(hrd))
    ensures Cpb.FitsEach(Schedule(hrd, 0, frames), capacity)
  {
    hide Step, Unit, WithinMax, WithinMin, Sound, Fits, Capacity, ArrivedUntil;
    MaxKeepsSound(hrd, 0, frames[0]);
    UnitMeaning(hrd, 0, frames[0]);
    RunFits(Step(hrd, 0, frames[0]), 1, frames[1..]);
  }

  /** Whole runs from the configuration: the delay fits from the second frame on, and the content of the buffer
      never exceeds what is granted. */
  lemma {:induction false} RunStaysInside(codec: Codec, p: Params, frames: seq<Frame>)
    requires p.Valid() && StartsInside(codec, p) && IsStream(0, frames) && frames != []
    requires EachWithinMax(Init(codec, p), 0, frames) && EachWithinMin(Init(codec, p), 0, frames)
    ensures Fits(After(Init(codec, p), 0, frames), |frames|)
    ensures Cpb.NeverOverflows(Schedule(Init(codec, p), 0, frames), GrantedBits(codec, p))
  {
    hide StartsInside, FirstDelayFits, Init, Capacity, GrantedBits, Sound, Fits, Unit, WithinMin, Schedule;
    hide ArrivedUntil, After;
    var hrd := Init(codec, p);
    InitialStateSound(codec, p);
    InitialStateFits(codec, p);
    FirstStay(codec, p, frames[0]);
    FirstStepFits(codec, p, frames[0]);
    RunStaysWithin(hrd, frames, GrantedBits(codec, p));
    Cpb.FullnessWithinCapacity(Schedule(hrd, 0, frames), ArrivedUntil(hrd), GrantedBits(codec, p));
  }

  /** The guarantee of the rate controller's buffer model, from its configuration alone: whatever
      frames pass its two queries, the coded picture buffer neither underflows nor overflows. */
  lemma {:induction false} ConformantRun(codec: Codec, p: Params, frames: seq<Frame>)
    requires p.Valid() && StartsInside(codec, p) && IsStream(0, frames)
    requires EachWithinMax(Init(codec, p), 0, frames) && EachWithinMin(Init(codec, p), 0, frames)
    ensures var aus := Schedule(Init(codec, p), 0, frames);
            && Cpb.NeverUnderflows(aus)
            && Cpb.NeverOverflows(aus, GrantedBits(codec, p))
  {
    hide StartsInside, Init, Capacity, GrantedBits, Sound, EachWithinMax, EachWithinMin, Fits;
    InitialStateSound(codec, p);
    InitialStateFits(codec, p);
    RunNeverUnderflows(Init(codec, p), 0, frames);
    if frames != [] {
      RunStaysInside(codec, p, frames);
    }
  }

  /** The state after any run that passed the queries. */
  lemma {:induction false} ReachableState(codec: Codec, p: Params, frames: seq<Frame>)
    requires p.Valid() && IsStream(0, frames)
    requires EachWithinMax(Init(codec, p), 0, frames)
    ensures Sound(After(Init(codec, p), 0, frames), |frames|)
    ensures StartsInside(codec, p) && EachWithinMin(Init(codec, p), 0, frames)
            && (frames != [] || FirstDelayFits(codec, p)) ==>
              Fits(After(Init(codec, p), 0, frames), |frames|)
  {
    hide StartsInside, FirstDelayFits, Init, Sound, Fits, EachWithinMax, EachWithinMin, Schedule, GrantedBits;
    InitialStateSound(codec, p);
    RunNeverUnderflows(Init(codec, p), 0, frames);
    if StartsInside(codec, p) && EachWithinMin(Init(codec, p), 0, frames) {
      InitialStateFits(codec, p);
      if frames != [] {
        RunStaysInside(codec, p, frames);
      }
    }
  }

  /** After every run the queries stay within the buffer: no admissible frame exceeds it, and the delay handed to the
      decoder and its offset add up to the buffer length and are non-negative, the first ones of H.264 in CBR
      exactly if the first delay fits. */
  lemma {:induction false} QueriesWithinBuffer(codec: Codec, p: Params, frames: seq<Frame>, sei: bool)
    requires p.Valid() && StartsInside(codec, p) && IsStream(0, frames)
    requires EachWithinMax(Init(codec, p), 0, frames) && EachWithinMin(Init(codec, p), 0, frames)
    ensures var hrd := After(Init(codec, p), 0, frames);
            && 0 <= Delay(hrd, |frames|)
            && Delay(hrd, |frames|) + DelayOffset(hrd, |frames|) == hrd.h.cpbSize90k
            && (0 <= DelayOffset(hrd, |frames|) <==> frames != [] || FirstDelayFits(codec, p))
            && 0 <= MaxFrameSize(hrd, |frames|, sei)
            && MaxFrameSize(hrd, |frames|, sei) as real <= GrantedBits(codec, p)
  {
    hide StartsInside, FirstDelayFits, Init, Sound, Fits, EachWithinMax, EachWithinMin, After, GrantedBits;
    hide Delay, DelayOffset, MaxFrameSize;
    ReachableState(codec, p, frames);
    var hrd := After(Init(codec, p), 0, frames);
    CastsAreDefined(hrd, |frames|, sei);
    if frames == [] && !FirstDelayFits(codec, p) {
      OnlyAvcRoundsUp(codec, p);
      NoFrames(Init(codec, p));
      FirstQueriesRoundedUp(p, sei);
    } else {
      StateInput(codec, p, frames);
      FittingQueries(codec, p, hrd, |frames|, sei);
    }
  }

  lemma {:induction false} StateInput(codec: Codec, p: Params, frames: seq<Frame>)
    requires p.Valid()
    ensures var hrd := After(Init(codec, p), 0, frames);
            (hrd.Avc? <==> codec == AVC) && hrd.h == if codec == AVC then H264Hrd.InputOf(p) else FromParams(p)
  {
    hide H264Hrd.InitialState, HevcHrd.InitialState, H264Hrd.InputOf, FromParams;
  }

  lemma FittingQueries(codec: Codec, p: Params, hrd: Hrd, eo: nat, sei: bool)
    requires p.Valid() && StartsInside(codec, p) && (hrd.Avc? <==> codec == AVC)
    requires hrd.h == if codec == AVC then H264Hrd.InputOf(p) else FromParams(p)
    requires hrd.h.Valid() && Sound(hrd, eo) && Fits(hrd, eo)
    ensures Delay(hrd, eo) + DelayOffset(hrd, eo) == hrd.h.cpbSize90k
    ensures 0 <= DelayOffset(hrd, eo)
    ensures MaxFrameSize(hrd, eo, sei) as real <= GrantedBits(codec, p)
  {
    hide H264Hrd.Delay, HevcHrd.Delay, H264Hrd.MaxFrameSize, HevcHrd.MaxFrameSize, TimesRate, H264Hrd.InputOf;
    hide H264Hrd.Fits, HevcHrd.Fits, HevcHrd.Sound, H264Hrd.DelayOffset, HevcHrd.DelayOffset, FromParams;
    InitMeaning(p);
    if codec == AVC {
      H264Hrd.InputOfRates(p);
      H264Hrd.QueriesWithinBuffer(p, hrd.avc, Frame(0, sei));
    } else {
      HevcHrd.QueriesWithinBuffer(p, hrd.hevc, eo);
    }
  }

  lemma {:induction false} NoFrames(hrd: Hrd)
    requires hrd.h.Valid()
    ensures After(hrd, 0, []) == hrd
  {
  }

  lemma OnlyAvcRoundsUp(codec: Codec, p: Params)
    requires p.Valid() && StartsInside(codec, p) && !FirstDelayFits(codec, p)
    ensures codec == AVC && p.cbr
  {
  }

  lemma FirstQueriesRoundedUp(p: Params, sei: bool)
    requires p.Valid() && StartsInside(AVC, p) && !FirstDelayFits(AVC, p)
    ensures var hrd := Init(AVC, p);
            && Delay(hrd, 0) + DelayOffset(hrd, 0) == hrd.h.cpbSize90k && DelayOffset(hrd, 0) < 0
            && MaxFrameSize(hrd, 0, sei) as real <= GrantedBits(AVC, p)
  {
    hide TimesRate, H264Hrd.InitialState, H264Hrd.Delay, GrantedBits, FromParams;
    var h := H264Hrd.InputOf(p);
    FirstStay(AVC, p, Frame(0, sei));
    SameRate(p);
    hide H264Hrd.InputOf;
    H264Hrd.FirstDelay(h);
    var s := H264Hrd.InitialState(h);
    RateSum(h, s.trn, H264Hrd.ArrivalStart(h, s, sei));
  }

  /** 1.024 Mbit/s CBR with a buffer of 100 kB that is full when the first frame is removed: it lasts 70312.5 ticks. */
  const FULL_START := Params(true, 1024000, 25.0, 100000, 100000)

  /** The run conforms, but the first delay reported is a tick longer than the buffer, and its offset, which is
      stored without a sign, is negative. */
  lemma FirstDelayCanExceedBuffer()
    ensures FULL_START.Valid() && StartsInside(AVC, FULL_START) && !FirstDelayFits(AVC, FULL_START)
    ensures var hrd := Init(AVC, FULL_START);
            hrd.h.cpbSize90k == 70312 && Delay(hrd, 0) == 70313 && DelayOffset(hrd, 0) == -1
  {
    var h := H264Hrd.InputOf(FULL_START);
    assert h.cpbSize90k == 70312 && h.initCpbRemovalDelay == 70312.5;
    H264Hrd.FirstDelay(h);
  }

  ghost predicate Roomy(hrd: Hrd, spare: nat) {
    hrd.h.cbr ==> if hrd.Avc? then H264Hrd.Roomy(hrd.h, spare) else HevcHrd.Roomy(hrd.h, spare)
  }

  /** A run that passed the queries can always go on: some frame size passes both of them again, and so do
      `spare` bits more than the minimum if there is one. */
  lemma {:induction false} RunCanContinue(codec: Codec, p: Params, frames: seq<Frame>, sei: bool, spare: nat)
    requires p.Valid() && IsStream(0, frames)
    requires Roomy(Init(codec, p), spare)
    requires EachWithinMax(Init(codec, p), 0, frames)
    ensures var hrd := After(Init(codec, p), 0, frames);
            var least, most := MinFrameSize(hrd, |frames|, sei), MaxFrameSize(hrd, |frames|, sei);
            0 <= least <= most && (least > 0 ==> least + spare <= most)
  {
    hide H264Hrd.MinFrameSize, HevcHrd.MinFrameSize, H264Hrd.MaxFrameSize, HevcHrd.MaxFrameSize, TimesRate;
    hide HevcHrd.Sound, H264Hrd.Roomy, HevcHrd.Roomy, After, EachWithinMax, Init;
    ReachableState(codec, p, frames);
    var hrd := After(Init(codec, p), 0, frames);
    match hrd {
      case Avc(h, s) => H264Hrd.LegalSizeExists(h, s, sei, spare);
      case Hevc(h, s) => HevcHrd.LegalSizeExists(h, s, |frames|, spare);
    }
  }

  // ----- the schedule in closed form -----

  function TotalBits(frames: seq<Frame>): nat {
    if frames == [] then 0 else frames[0].bits + TotalBits(frames[1..])
  }

  /** Bits that arrive in one frame interval. */
  function IntervalBits(hrd: Hrd): real {
    TimesRate(hrd.h, if hrd.Avc? then hrd.h.clockTick else hrd.h.clockTick / 90000.0)
  }

  lemma StepArrival(hrd: Hrd, eo: nat, f: Frame)
    requires hrd.h.Valid() && Sound(hrd, eo)
    ensures ArrivedUntil(hrd) + f.bits as real <= ArrivedUntil(Step(hrd, eo, f))
    ensures hrd.h.cbr ==> ArrivedUntil(Step(hrd, eo, f)) == ArrivedUntil(hrd) + f.bits as real
  {
    hide TimesRate, OverRate, HevcHrd.Sound, HevcHrd.Removal, HevcHrd.Delay, H264Hrd.Delay;
    UnitMeaning(hrd, eo, f);
  }

  lemma StepRemoval(hrd: Hrd, eo: nat, f: Frame, g: Frame)
    requires hrd.h.Valid() && Sound(hrd, eo) && IsStream(eo, [f, g])
    ensures Unit(Step(hrd, eo, f), eo + 1, g).removal == Unit(hrd, eo, f).removal + IntervalBits(hrd)
  {
    hide TimesRate, HevcHrd.OnGrid, HevcHrd.Delay, H264Hrd.Delay, HevcHrd.Removal, OverRate, HevcHrd.Grid;
    match hrd {
      case Avc(h, s) =>
        RateSum(h, s.trn, h.clockTick);
      case Hevc(h, s) =>
        HevcHrd.StepStaysOnGrid(h, s, eo, f);
        HevcHrd.NominalTimeDoesNotDrift(h, s, eo, f.sei);
        HevcHrd.NominalTimeDoesNotDrift(h, HevcHrd.Step(h, s, eo, f), eo + 1, g.sei);
        HevcHrd.GridAdvances(h, eo);
        RateSum(h, HevcHrd.Grid(h, eo), h.clockTick);
        RateScaled(h, h.clockTick);
    }
  }

  /** Removal times are evenly spaced, one frame interval apart, whatever the frames and buffering periods. */
  ghost predicate EvenlySpaced(aus: seq<Cpb.AccessUnit>, interval: real) {
    forall k :: 0 <= k < |aus| - 1 ==> aus[k + 1].removal == aus[k].removal + interval
  }

  /** In CBR arrival conserves bits: what has arrived after a run is what had arrived before plus the bits of
      its frames; in VBR it is at least that. Removals are evenly spaced in both. */
  lemma {:induction false} ScheduleIsConserving(hrd: Hrd, eo: nat, frames: seq<Frame>)
    requires hrd.h.Valid() && Sound(hrd, eo) && IsStream(eo, frames)
    requires EachWithinMax(hrd, eo, frames)
    ensures ArrivedUntil(hrd) + TotalBits(frames) as real <= ArrivedUntil(After(hrd, eo, frames))
    ensures hrd.h.cbr ==> ArrivedUntil(After(hrd, eo, frames)) == ArrivedUntil(hrd) + TotalBits(frames) as real
    ensures EvenlySpaced(Schedule(hrd, eo, frames), IntervalBits(hrd))
    decreases |frames|
  {
    hide Step, Unit, WithinMax, Sound, ArrivedUntil, IntervalBits;
    if frames != [] {
      var f, s' := frames[0], Step(hrd, eo, frames[0]);
      MaxKeepsSound(hrd, eo, f);
      ScheduleIsConserving(s', eo + 1, frames[1..]);
      StepArrival(hrd, eo, f);
      SameInterval(hrd, eo, f);
      var aus, rest := Schedule(hrd, eo, frames), Schedule(s', eo + 1, frames[1..]);
      assert aus == [Unit(hrd, eo, f)] + rest;
      if |frames| > 1 {
        StepRemoval(hrd, eo, f, frames[1]);
        assert rest[0] == Unit(s', eo + 1, frames[1]);
      }
    }
  }

  lemma SameInterval(hrd: Hrd, eo: nat, f: Frame)
    requires hrd.h.Valid()
    ensures IntervalBits(Step(hrd, eo, f)) == IntervalBits(hrd)
  {
  }

  /** The first frame is removed when the configured initial bits have arrived, for H.264 to within a tick or, in VBR,
      after the buffer length if that is less. */
  lemma FirstRemoval(codec: Codec, p: Params, f: Frame)
    requires p.Valid()
    ensures var removal := Unit(Init(codec, p), 0, f).removal;
            var initial := (8 * p.initialDelayInBytes) as real;
            && (codec == HEVC ==> removal == initial)
            && (codec == AVC ==> removal <= initial + p.maxbps as real / 90000.0)
            && (codec == AVC && p.cbr ==> initial - p.maxbps as real / 90000.0 <= removal)
            && (codec == AVC && !p.cbr && 1 <= FromParams(p).cpbSize90k ==>
                  var whole := TimesRate(FromParams(p), FromParams(p).Cpb()) / 90000.0;
                  MinReal(initial - p.maxbps as real / 90000.0, whole) <= removal <= whole)
  {
    hide TimesRate, H264Hrd.InitialState, H264Hrd.InputOf, H264Hrd.Unit;
    InitMeaning(p);
    if codec == AVC {
      var h := H264Hrd.InputOf(p);
      H264Hrd.InputOfRates(p);
      var init, due := h.initCpbRemovalDelay, H264Hrd.InitialState(h).trn * 90000.0;
      H264Hrd.FirstRemoval(h, f);
      RateSum(h, init, 1.0);
      RateOrder(h, due, init + 1.0);
      RateOrder(h, init - 1.0, due);
      SameRate(p);
      RateSum(h, init, 1.0);
      RateOrder(h, h.Cpb(), due);
      RateOrder(h, due, h.Cpb());
    }
  }
}
