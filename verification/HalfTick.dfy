/** How sharp the H.264 guarantee is. Its decoder rounds the delay it reports, so in CBR the minimum-size
    query can let the buffer content exceed the configured size, by less than the bits of half a tick. Which
    configurations do is decided by where the exact delays can fall between two ticks. */
module HalfTick {
  import opened Numeric
  import opened HrdInput
  import opened Hrd
  import Cpb
  import H264Hrd

  // ----- every state of a CBR run lies on a grid -----

  /** The state after `n` frames of `bits` bits altogether. */
  function Grid(h: Input, n: nat, bits: int): H264Hrd.State
    requires h.Valid()
  {
    H264Hrd.State(H264Hrd.InitialState(h).trn + n as real * h.clockTick, OverRate(h, bits as real))
  }

  /** Bits the buffer holds when the next frame is removed, if enough frames follow it. */
  function Held(h: Input, s: H264Hrd.State): real { TimesRate(h, s.trn - s.taf) }

  /** Bits that arrive in a frame interval. */
  function PerFrame(h: Input): real { TimesRate(h, h.clockTick) }

  lemma GridStart(h: Input)
    requires h.Valid()
    ensures Grid(h, 0, 0) == H264Hrd.InitialState(h)
  {
    RateOrder(h, 0.0, OverRate(h, 0.0));
    RateScaled(h, 0.0);
  }

  lemma GridStep(h: Input, n: nat, bits: int, f: Frame)
    requires h.Valid() && h.cbr
    ensures H264Hrd.Step(h, Grid(h, n, bits), f) == Grid(h, n + 1, bits + f.bits)
    ensures Held(h, Grid(h, n + 1, bits + f.bits)) == Held(h, Grid(h, n, bits)) + PerFrame(h) - f.bits as real
  {
    hide TimesRate, OverRate, H264Hrd.InitialState, H264Hrd.Delay;
    SumOverRate(h, bits as real, f.bits as real);
    OneMore(n, h.clockTick);
    var s := Grid(h, n, bits);
    RateSum(h, s.trn - s.taf, h.clockTick);
    RateSum(h, s.trn - s.taf + h.clockTick, OverRate(h, f.bits as real));
  }

  lemma OneMore(n: nat, x: real)
    ensures (n + 1) as real * x == n as real * x + x
  {
  }

  lemma SumOverRate(h: Input, x: real, y: real)
    requires h.Valid()
    ensures OverRate(h, x + y) == OverRate(h, x) + OverRate(h, y)
  {
    hide TimesRate, OverRate;
    RateSum(h, OverRate(h, x), OverRate(h, y));
    RateOrder(h, OverRate(h, x + y), OverRate(h, x) + OverRate(h, y));
    RateOrder(h, OverRate(h, x) + OverRate(h, y), OverRate(h, x + y));
  }

  // ----- the condition -----

  function BufferBits(p: Params): nat { 8 * p.bufferSizeInBytes }

  /** What sizes a frame can have: whole bytes, as the controller commits them, or any number of bits. */
  datatype Grain = Bytes | Bits

  predicate IsSize(g: Grain, bits: int) { g == Bytes ==> bits % 8 == 0 }

  function RoundUp(g: Grain, bits: int): (r: int)
    ensures IsSize(g, r) && bits <= r < bits + 8
    ensures forall x :: IsSize(g, x) && bits <= x ==> r <= x
  {
    if g == Bytes then (bits + 7) / 8 * 8 else bits
  }

  function RoundDown(g: Grain, bits: int): (r: int)
    ensures IsSize(g, r) && r <= bits < r + SizeUnit(g) <= r + 8
  {
    if g == Bytes then bits / 8 * 8 else bits
  }

  function SizeUnit(g: Grain): nat { if g == Bytes then 8 else 1 }

  predicate AllSizes(g: Grain, frames: seq<Frame>) {
    forall k :: 0 <= k < |frames| ==> IsSize(g, frames[k].bits)
  }

  /** From the grid point the smallest frame allowed leads to a state that can hold more than the buffer. */
  predicate Overshoots(p: Params, g: Grain, n: nat, bits: int)
    requires p.Valid()
  {
    var h := H264Hrd.InputOf(p);
    var s := Grid(h, n, bits);
    && IsSize(g, bits)
    && H264Hrd.Delay(h, s) < h.cpbSize90k
    && Held(h, s) + PerFrame(h) - RoundUp(g, H264Hrd.MinFrameSize(h, s)) as real > BufferBits(p) as real
  }

  /** The fewest bits after which a grid point of `n` frames holds no more than the buffer. */
  function LeastBits(p: Params, n: nat): int
    requires p.Valid()
  {
    (Held(H264Hrd.InputOf(p), Grid(H264Hrd.InputOf(p), n, 0)) - BufferBits(p) as real).Floor
  }

  /** Whether one of the first `num` frames has a grid point that overshoots. The points to try are those that hold
      at most the buffer, and less than a frame interval short of it. */
  predicate CanOvershoot(p: Params, g: Grain, num: nat)
    requires p.Valid()
  {
    exists n: nat | n < num ::
      exists bits: int | LeastBits(p, n) <= bits <= LeastBits(p, n) + PerFrame(H264Hrd.InputOf(p)).Floor + 2 ::
        Overshoots(p, g, n, bits)
  }

  /** The points left out do not overshoot. */
  lemma OvershootIsBounded(p: Params, g: Grain, n: nat, bits: int)
    requires p.Valid() && p.cbr && Overshoots(p, g, n, bits)
    ensures BufferBits(p) as real - PerFrame(H264Hrd.InputOf(p))
            < Held(H264Hrd.InputOf(p), Grid(H264Hrd.InputOf(p), n, bits)) <= BufferBits(p) as real
    ensures LeastBits(p, n) <= bits <= LeastBits(p, n) + PerFrame(H264Hrd.InputOf(p)).Floor + 2
  {
    hide TimesRate, Grid, H264Hrd.InputOf, H264Hrd.Delay, H264Hrd.MinFrameSize;
    var h := H264Hrd.InputOf(p);
    var s := Grid(h, n, bits);
    BufferInBits(p);
    RateScaled(h, h.Cpb());
    MinIsNatural(h, s);
    DelayBelow(h, s);
    RateOrder(h, s.trn - s.taf, h.Cpb() / 90000.0);
    GridMoves(h, n, bits, 0);
  }

  /** The frame rate is `num / den`, not necessarily in lowest terms: a period of `num` frames carries whole bytes. */
  ghost predicate HasFrameRate(p: Params, num: nat, den: nat) {
    num > 0 && den > 0 && p.frameRate * den as real == num as real && p.maxbps * den % 8 == 0
  }

  /** The grid repeats every `num` frames. */
  lemma GridRepeats(p: Params, g: Grain, num: nat, den: nat, n: nat, bits: int)
    requires p.Valid() && p.cbr && HasFrameRate(p, num, den)
    ensures var h := H264Hrd.InputOf(p);
            var s, s' := Grid(h, n, bits), Grid(h, n + num, bits + p.maxbps * den);
            s'.trn - s'.taf == s.trn - s.taf
    ensures Overshoots(p, g, n, bits) <==> Overshoots(p, g, n + num, bits + p.maxbps * den)
  {
    hide TimesRate, OverRate, H264Hrd.InitialState, RoundUp, H264Hrd.Delay, H264Hrd.MinFrameSize, Held, PerFrame;
    var h := H264Hrd.InputOf(p);
    PeriodLength(p, num, den);
    hide H264Hrd.InputOf;
    ManyTicks(n, num, h.clockTick);
    SumOverRate(h, bits as real, (p.maxbps * den) as real);
    SameQueries(h, Grid(h, n, bits), Grid(h, n + num, bits + p.maxbps * den));
  }

  lemma ManyTicks(n: nat, m: nat, x: real)
    ensures (n + m) as real * x == n as real * x + m as real * x
  {
  }

  lemma PeriodLength(p: Params, num: nat, den: nat)
    requires p.Valid() && HasFrameRate(p, num, den)
    ensures var h := H264Hrd.InputOf(p);
            num as real * h.clockTick == den as real && OverRate(h, (p.maxbps * den) as real) == den as real
  {
    InitMeaning(p);
    var h := H264Hrd.InputOf(p);
    assert h.clockTick * p.frameRate == 1.0;
    assert num as real * h.clockTick == den as real * (h.clockTick * p.frameRate);
    RateOrder(h, OverRate(h, (p.maxbps * den) as real), den as real);
    RateOrder(h, den as real, OverRate(h, (p.maxbps * den) as real));
  }

  lemma SameQueries(h: Input, s: H264Hrd.State, s': H264Hrd.State)
    requires h.Valid() && s'.trn - s'.taf == s.trn - s.taf
    ensures H264Hrd.Delay(h, s') == H264Hrd.Delay(h, s) && H264Hrd.MinFrameSize(h, s') == H264Hrd.MinFrameSize(h, s)
    ensures Held(h, s') == Held(h, s)
  {
    hide TimesRate;
  }

  lemma {:induction false} NoneOvershoots(p: Params, g: Grain, num: nat, den: nat, n: nat, bits: int)
    requires p.Valid() && p.cbr && HasFrameRate(p, num, den) && !CanOvershoot(p, g, num)
    ensures !Overshoots(p, g, n, bits)
    decreases n
  {
    hide Overshoots, LeastBits, PerFrame, H264Hrd.InputOf;
    if n >= num {
      NoneOvershoots(p, g, num, den, n - num, bits - p.maxbps * den);
      GridRepeats(p, g, num, den, n - num, bits - p.maxbps * den);
    } else if Overshoots(p, g, n, bits) {
      OvershootIsBounded(p, g, n, bits);
    }
  }

  // ----- without an overshoot the guarantee is exact -----

  /** The bits that can still arrive before the next removal fit the configured size exactly. */
  ghost predicate FitsExactly(p: Params, s: H264Hrd.State)
    requires p.Valid()
  {
    && H264Hrd.Fits(H264Hrd.InputOf(p), s)
    && (p.cbr ==> Held(H264Hrd.InputOf(p), s) <= BufferBits(p) as real)
  }

  lemma StartsExactly(p: Params)
    requires p.Valid() && FirstDelayFits(AVC, p)
    ensures FitsExactly(p, H264Hrd.InitialState(H264Hrd.InputOf(p)))
  {
    hide TimesRate, H264Hrd.MinFrameSize, H264Hrd.InitialState;
    InitMeaning(p);
    var h := H264Hrd.InputOf(p);
    var s := H264Hrd.InitialState(h);
    H264Hrd.InitialStateFits(h);
    H264Hrd.FitsMeaning(h, s);
    hide H264Hrd.Delay, H264Hrd.Fits;
    if p.cbr {
      H264Hrd.FirstDelay(h);
      RateOrder(h, s.trn - s.taf, h.Cpb() / 90000.0);
      RateScaled(h, h.Cpb());
      BufferInBits(p);
    }
  }

  lemma BufferInBits(p: Params)
    requires p.Valid()
    ensures TimesRate(H264Hrd.InputOf(p), H264Hrd.InputOf(p).Cpb()) / 90000.0 <= BufferBits(p) as real
  {
    InitMeaning(p);
  }

  /** At a full buffer the minimum exceeds what arrives in an interval. */
  lemma FullBufferDrains(h: Input, s: H264Hrd.State)
    requires h.Valid() && h.cbr && H264Hrd.Delay(h, s) == h.cpbSize90k
    ensures H264Hrd.MinFrameSize(h, s) as real > PerFrame(h)
  {
    hide TimesRate, H264Hrd.Delay;
    assert H264Hrd.Delay(h, s) as real + h.clockTick * 90000.0 - h.Cpb() == h.clockTick * 90000.0;
  }

  lemma ExactStep(p: Params, g: Grain, n: nat, bits: int, f: Frame)
    requires p.Valid() && !Overshoots(p, g, n, bits) && IsSize(g, bits) && IsSize(g, f.bits)
    requires p.cbr && FitsExactly(p, Grid(H264Hrd.InputOf(p), n, bits))
    requires f.bits >= H264Hrd.MinFrameSize(H264Hrd.InputOf(p), Grid(H264Hrd.InputOf(p), n, bits))
    ensures FitsExactly(p, Grid(H264Hrd.InputOf(p), n + 1, bits + f.bits))
  {
    var h := H264Hrd.InputOf(p);
    var s := Grid(h, n, bits);
    GridStep(h, n, bits, f);
    H264Hrd.FitsMeaning(h, s);
    H264Hrd.MinKeepsFitting(h, s, f);
    hide Grid, Held, PerFrame, H264Hrd.Delay, H264Hrd.MinFrameSize, H264Hrd.Fits, H264Hrd.Step, H264Hrd.InputOf;
    assert f.bits >= RoundUp(g, H264Hrd.MinFrameSize(h, s));
    hide RoundUp;
    if H264Hrd.Delay(h, s) == h.cpbSize90k {
      FullBufferDrains(h, s);
    }
  }

  lemma ExactStay(p: Params, s: H264Hrd.State, f: Frame)
    requires p.Valid() && FitsExactly(p, s)
    ensures H264Hrd.Unit(H264Hrd.InputOf(p), s, f).removal - H264Hrd.Unit(H264Hrd.InputOf(p), s, f).arrival
            <= BufferBits(p) as real
  {
    hide TimesRate, H264Hrd.InputOf, H264Hrd.Delay;
    var h := H264Hrd.InputOf(p);
    RateSum(h, s.trn, H264Hrd.ArrivalStart(h, s, f.sei));
    if !p.cbr {
      VbrStay(h, s, f.sei);
      RateOrder(h, s.trn - H264Hrd.ArrivalStart(h, s, f.sei), h.Cpb() / 90000.0);
      RateScaled(h, h.Cpb());
      BufferInBits(p);
    }
  }

  lemma VbrStay(h: Input, s: H264Hrd.State, sei: bool)
    requires !h.cbr && 1 <= h.cpbSize90k
    ensures s.trn - H264Hrd.ArrivalStart(h, s, sei) <= h.Cpb() / 90000.0
  {
  }

  lemma {:induction false} CbrRunFitsExactly(p: Params, g: Grain, n: nat, bits: int, frames: seq<Frame>)
    requires p.Valid() && p.cbr && forall k: nat, b: int :: !Overshoots(p, g, k, b)
    requires IsSize(g, bits) && AllSizes(g, frames) && FitsExactly(p, Grid(H264Hrd.InputOf(p), n, bits))
    requires EachWithinMin(Avc(H264Hrd.InputOf(p), Grid(H264Hrd.InputOf(p), n, bits)), n, frames)
    ensures var h := H264Hrd.InputOf(p);
            var s := Grid(h, n, bits);
            && Cpb.Serial(Schedule(Avc(h, s), n, frames), TimesRate(h, s.taf))
            && Cpb.FitsEach(Schedule(Avc(h, s), n, frames), BufferBits(p) as real)
    decreases |frames|
  {
    hide TimesRate, H264Hrd.Step, H264Hrd.MinFrameSize, H264Hrd.Unit, FitsExactly, Overshoots, Grid, H264Hrd.InputOf;
    if frames != [] {
      var h := H264Hrd.InputOf(p);
      var s := Grid(h, n, bits);
      H264Hrd.UnitIsSerial(h, s, frames[0]);
      ExactStay(p, s, frames[0]);
      ExactStep(p, g, n, bits, frames[0]);
      GridStep(h, n, bits, frames[0]);
      CbrRunFitsExactly(p, g, n + 1, bits + frames[0].bits, frames[1..]);
    }
  }

  lemma {:induction false} VbrRunFitsExactly(p: Params, s: H264Hrd.State, eo: nat, frames: seq<Frame>)
    requires p.Valid() && !p.cbr && FitsExactly(p, s)
    ensures var h := H264Hrd.InputOf(p);
            && Cpb.Serial(Schedule(Avc(h, s), eo, frames), TimesRate(h, s.taf))
            && Cpb.FitsEach(Schedule(Avc(h, s), eo, frames), BufferBits(p) as real)
    decreases |frames|
  {
    hide TimesRate, H264Hrd.Step, H264Hrd.Unit, H264Hrd.InputOf;
    if frames != [] {
      var h := H264Hrd.InputOf(p);
      H264Hrd.UnitIsSerial(h, s, frames[0]);
      ExactStay(p, s, frames[0]);
      VbrRunFitsExactly(p, H264Hrd.Step(h, s, frames[0]), eo + 1, frames[1..]);
    }
  }

  /** If no grid point overshoots and the first delay fits, the content of the buffer never exceeds the configured
      size; in VBR no grid point has to be looked at. */
  lemma {:induction false} RunNeverOverflowsExactly(p: Params, g: Grain, frames: seq<Frame>)
    requires p.Valid() && FirstDelayFits(AVC, p)
    requires p.cbr ==> AllSizes(g, frames) && forall k: nat, b: int :: !Overshoots(p, g, k, b)
    requires EachWithinMin(Init(AVC, p), 0, frames)
    ensures Cpb.NeverOverflows(Schedule(Init(AVC, p), 0, frames), BufferBits(p) as real)
  {
    hide TimesRate, Overshoots, H264Hrd.InitialState, Grid, Schedule, EachWithinMin, FitsExactly, H264Hrd.InputOf;
    var h := H264Hrd.InputOf(p);
    var s := H264Hrd.InitialState(h);
    StartsExactly(p);
    if p.cbr {
      GridStart(h);
      CbrRunFitsExactly(p, g, 0, 0, frames);
    } else {
      VbrRunFitsExactly(p, s, 0, frames);
    }
    Cpb.FullnessWithinCapacity(Schedule(Init(AVC, p), 0, frames), TimesRate(h, s.taf), BufferBits(p) as real);
  }

  // ----- a closed condition under which nothing overshoots -----

  /** What a frame interval has beyond whole ticks, in ticks. */
  function PartialTick(h: Input): real { h.clockTick * 90000.0 - (h.clockTick * 90000.0).Floor as real }

  /** Half a tick of bits is absorbed: before the minimum applies by what the buffer holds beyond whole ticks, and
      after that by up to 15 of the 16 bits the minimum adds. Whole-tick intervals meet the first condition, and a
      buffer length that rounds up meets both, at any rate. */
  predicate Smooth(p: Params)
    requires p.Valid()
  {
    var h := H264Hrd.InputOf(p);
    && TimesRate(h, h.Cpb() - 0.5 + PartialTick(h)) <= 90000.0 * BufferBits(p) as real
    && TimesRate(h, h.Cpb() + 0.5) <= 90000.0 * (BufferBits(p) + 15) as real
  }

  lemma SmoothNeverOvershoots(p: Params, g: Grain, n: nat, bits: int)
    requires p.Valid() && p.cbr && Smooth(p)
    ensures !Overshoots(p, g, n, bits)
  {
    hide TimesRate, Grid, H264Hrd.InputOf, H264Hrd.Delay;
    var h := H264Hrd.InputOf(p);
    var s := Grid(h, n, bits);
    var ticks, interval, delay := 90000.0 * (s.trn - s.taf), h.clockTick * 90000.0, H264Hrd.Delay(h, s);
    DelayRounds(h, s);
    RateSum(h, s.trn - s.taf, h.clockTick);
    assert s.trn - s.taf + h.clockTick == (ticks + interval) / 90000.0;
    RateScaled(h, ticks + interval);
    var excess := delay as real + interval - h.Cpb();
    if delay < h.cpbSize90k {
      if excess < 0.0 {
        assert delay + interval.Floor <= h.cpbSize90k - 1;
        RateOrder(h, ticks + interval, h.Cpb() - 0.5 + PartialTick(h));
      } else {
        RateScaled(h, excess);
        RateSum(h, ticks + interval, excess);
        RateOrder(h, ticks + interval - excess, h.Cpb() + 0.5);
      }
    }
  }

  lemma DelayRounds(h: Input, s: H264Hrd.State)
    requires h.cbr
    ensures 1 <= H264Hrd.Delay(h, s)
    ensures 90000.0 * (s.trn - s.taf) < H264Hrd.Delay(h, s) as real + 0.5
    ensures H264Hrd.Delay(h, s) == 1 || H264Hrd.Delay(h, s) as real <= 90000.0 * (s.trn - s.taf) + 0.5
  {
  }

  /** Under the closed condition the guarantee is exact, for frames of any number of bits. */
  lemma {:induction false} SmoothRunNeverOverflows(p: Params, frames: seq<Frame>)
    requires p.Valid() && FirstDelayFits(AVC, p) && (p.cbr ==> Smooth(p))
    requires EachWithinMin(Init(AVC, p), 0, frames)
    ensures Cpb.NeverOverflows(Schedule(Init(AVC, p), 0, frames), BufferBits(p) as real)
  {
    hide Smooth, Overshoots, FirstDelayFits, EachWithinMin, Init, Schedule;
    if p.cbr {
      forall k: nat, b: int ensures !Overshoots(p, Bits, k, b) {
        SmoothNeverOvershoots(p, Bits, k, b);
      }
    }
    RunNeverOverflowsExactly(p, Bits, frames);
  }

  /** The two kinds of configuration named above meet the condition: a buffer length that rounds up, at any rate
      and interval, and whole-tick intervals at up to 2.7 Mbit/s. */
  lemma SmoothConfigurations(p: Params)
    requires p.Valid()
    requires var h := H264Hrd.InputOf(p);
             || TimesRate(h, h.Cpb() + 0.5) <= 90000.0 * BufferBits(p) as real
             || (PartialTick(h) == 0.0 && p.maxbps <= 2700000)
    ensures Smooth(p)
  {
    hide TimesRate, H264Hrd.InputOf, PartialTick;
    var h := H264Hrd.InputOf(p);
    PartialTickIsPartial(h);
    BufferInBits(p);
    RateOrder(h, h.Cpb() - 0.5 + PartialTick(h), h.Cpb() + 0.5);
    RateOrder(h, h.Cpb() - 0.5, h.Cpb());
    RateSum(h, h.Cpb(), 0.5);
    HalfATick(p);
  }

  lemma PartialTickIsPartial(h: Input)
    ensures 0.0 <= PartialTick(h) < 1.0
  {
  }

  // ----- with an overshoot it is not: every grid point below the buffer length is reached -----

  /** Room in a CBR buffer for two frame intervals, a byte and a tick, and at least a byte in every interval. */
  ghost predicate Spacious(h: Input) {
    && h.cbr && H264Hrd.Roomy(h, 7)
    && 2.0 * h.clockTick * 90000.0 + 720000.0 / h.Rate() + 1.0 < h.Cpb()
    && 8.0 <= PerFrame(h)
  }

  /** `frames` pass both queries from the start, open with a buffering period and lead to the grid point. */
  ghost predicate Reaches(h: Input, g: Grain, frames: seq<Frame>, n: nat, bits: int)
    requires h.Valid()
  {
    var hrd := Avc(h, H264Hrd.InitialState(h));
    && |frames| == n && AllSizes(g, frames) && Conforms(hrd, 0, frames) && (n > 0 ==> frames[0].sei)
    && After(hrd, 0, frames) == Avc(h, Grid(h, n, bits))
  }

  lemma StartIsReached(h: Input, g: Grain)
    requires h.Valid()
    ensures Reaches(h, g, [], 0, 0)
  {
    hide H264Hrd.InitialState, Grid;
    GridStart(h);
  }

  /** One more frame that passes both queries. */
  lemma ReachOneMore(h: Input, g: Grain, frames: seq<Frame>, n: nat, bits: int, f: Frame)
    requires h.Valid() && h.cbr && Reaches(h, g, frames, n, bits) && f.sei && IsSize(g, f.bits)
    requires H264Hrd.MinFrameSize(h, Grid(h, n, bits)) <= f.bits <= H264Hrd.MaxFrameSize(h, Grid(h, n, bits), true)
    ensures Reaches(h, g, frames + [f], n + 1, bits + f.bits)
  {
    hide H264Hrd.MinFrameSize, H264Hrd.MaxFrameSize, H264Hrd.InitialState, Grid, H264Hrd.Step, TimesRate;
    var hrd, here := Avc(h, H264Hrd.InitialState(h)), Avc(h, Grid(h, n, bits));
    RunOfParts(hrd, 0, frames, [f]);
    GridStep(h, n, bits, f);
    OneFrame(here, n, f);
    assert n > 0 ==> (frames + [f])[0] == frames[0];
  }

  lemma {:induction false} OneFrame(hrd: Hrd, eo: nat, f: Frame)
    requires hrd.h.Valid()
    ensures After(hrd, eo, [f]) == Step(hrd, eo, f)
    ensures Schedule(hrd, eo, [f]) == [Unit(hrd, eo, f)]
    ensures Conforms(hrd, eo, [f]) <==> WithinMax(hrd, eo, f) && WithinMin(hrd, eo, f)
  {
    hide Step, Unit, WithinMax, WithinMin;
    assert [f][1..] == [];
    assert After(Step(hrd, eo, f), eo + 1, []) == Step(hrd, eo, f);
    assert Schedule(Step(hrd, eo, f), eo + 1, []) == [];
    assert Conforms(Step(hrd, eo, f), eo + 1, []);
  }

  lemma MaxIsHeld(h: Input, s: H264Hrd.State)
    requires h.cbr
    ensures H264Hrd.MaxFrameSize(h, s, true) == Held(h, s).Floor
  {
  }

  lemma HeldIsTime(h: Input, s: H264Hrd.State)
    requires h.Valid()
    ensures 0.0 <= Held(h, s) <==> H264Hrd.InTime(s)
  {
    hide TimesRate;
    RateOrder(h, 0.0, s.trn - s.taf);
    RateScaled(h, 0.0);
  }

  /** Little more than a frame interval asks for no minimum. */
  lemma LowHasNoMinimum(h: Input, s: H264Hrd.State)
    requires h.Valid() && Spacious(h) && Held(h, s) < PerFrame(h) + 8.0
    ensures H264Hrd.MinFrameSize(h, s) == 0
  {
    hide TimesRate, H264Hrd.Delay;
    ByteTime(h);
    RateSum(h, h.clockTick, 8.0 / h.Rate());
    RateOrder(h, h.clockTick + 8.0 / h.Rate(), s.trn - s.taf);
    DelayRounds(h, s);
    ByteTicks(h);
    assert h.clockTick * 90000.0 > 0.0;
  }

  lemma ByteTime(h: Input)
    requires h.Valid()
    ensures 8.0 / h.Rate() > 0.0 && TimesRate(h, 8.0 / h.Rate()) == 8.0
  {
  }

  lemma ByteTicks(h: Input)
    requires h.Valid()
    ensures 90000.0 * (h.clockTick + 8.0 / h.Rate()) == h.clockTick * 90000.0 + 720000.0 / h.Rate()
  {
  }

  /** Emptying the buffer with frames of the maximum size: less than a byte is left over. */
  lemma {:induction false} Drained(h: Input, g: Grain, n: nat) returns (frames: seq<Frame>, bits: nat)
    requires h.Valid() && Spacious(h) && n > 0
    ensures Reaches(h, g, frames, n, bits) && IsSize(g, bits)
    ensures PerFrame(h) <= Held(h, Grid(h, n, bits)) < PerFrame(h) + SizeUnit(g) as real
  {
    hide TimesRate, Grid, H264Hrd.Roomy, Reaches, H264Hrd.InitialState, PerFrame;
    var before, sum := [], 0;
    if n == 1 {
      StartIsReached(h, g);
      GridStart(h);
      H264Hrd.InitialStateInTime(h);
    } else {
      before, sum := Drained(h, g, n - 1);
      LowHasNoMinimum(h, Grid(h, n - 1, sum));
    }
    var s := Grid(h, n - 1, sum);
    var f := DrainingFrame(h, g, s);
    ReachOneMore(h, g, before, n - 1, sum, f);
    GridStep(h, n - 1, sum, f);
    frames, bits := before + [f], sum + f.bits;
  }

  /** The largest frame of a possible size is legal. */
  lemma DrainingFrame(h: Input, g: Grain, s: H264Hrd.State) returns (f: Frame)
    requires h.Valid() && Spacious(h) && (H264Hrd.InTime(s) || 0.0 <= Held(h, s))
    ensures f.sei && IsSize(g, f.bits) && f.bits as real <= Held(h, s) < f.bits as real + SizeUnit(g) as real
    ensures f.bits == RoundDown(g, Held(h, s).Floor)
    ensures H264Hrd.MinFrameSize(h, s) <= f.bits <= H264Hrd.MaxFrameSize(h, s, true)
  {
    hide Held, H264Hrd.InTime, H264Hrd.MinFrameSize, H264Hrd.MaxFrameSize;
    HeldIsTime(h, s);
    H264Hrd.LegalSizeExists(h, s, true, 7);
    MaxIsHeld(h, s);
    assert RoundDown(g, Held(h, s).Floor) >= 0;
    f := Frame(RoundDown(g, Held(h, s).Floor), true);
  }

  /** Below the buffer length, the frame before may have been empty. */
  lemma EmptyIsLegal(h: Input, n: nat, bits: int)
    requires h.Valid() && Spacious(h) && n > 0
    requires H264Hrd.Delay(h, Grid(h, n, bits)) < h.cpbSize90k
    ensures H264Hrd.MinFrameSize(h, Grid(h, n - 1, bits)) == 0
    ensures H264Hrd.Delay(h, Grid(h, n - 1, bits)) < h.cpbSize90k
    ensures Held(h, Grid(h, n - 1, bits)) == Held(h, Grid(h, n, bits)) - PerFrame(h)
  {
    hide TimesRate, H264Hrd.InitialState, H264Hrd.Delay, OverRate;
    var s, s' := Grid(h, n - 1, bits), Grid(h, n, bits);
    OneMore(n - 1, h.clockTick);
    RateSum(h, s.trn - s.taf, h.clockTick);
    assert s'.trn - s'.taf == s.trn - s.taf + h.clockTick;
    DelayRounds(h, s);
    DelayBelow(h, s');
  }

  lemma DelayBelow(h: Input, s: H264Hrd.State)
    requires h.cbr && H264Hrd.Delay(h, s) < h.cpbSize90k
    ensures 90000.0 * (s.trn - s.taf) + 0.5 < h.Cpb()
  {
    if 90000.0 * (s.trn - s.taf) + 0.5 >= h.Cpb() {
      DelayRounds(h, s);
    }
  }

  /** A grid point below the buffer length is reached after enough frames: empty the buffer, then let it fill up
      with empty frames, after one whose size sets the position between the ticks. */
  lemma {:induction false} Reached(h: Input, g: Grain, n: nat, bits: int) returns (frames: seq<Frame>)
    requires h.Valid() && Spacious(h) && IsSize(g, bits)
    requires H264Hrd.Delay(h, Grid(h, n, bits)) < h.cpbSize90k
    requires PerFrame(h) <= Held(h, Grid(h, n, bits)) < n as real * PerFrame(h)
    ensures Reaches(h, g, frames, n, bits)
    decreases n
  {
    hide TimesRate, Grid, Reaches, H264Hrd.Delay, H264Hrd.MinFrameSize, PerFrame, H264Hrd.MaxFrameSize;
    var held, u := Held(h, Grid(h, n, bits)), PerFrame(h);
    AtMostOne(n, u);
    EmptyIsLegal(h, n, bits);
    OneMore(n - 1, u);
    if held < 2.0 * u {
      var before, sum := Drained(h, g, n - 1);
      var s := Grid(h, n - 1, sum);
      LowHasNoMinimum(h, s);
      MaxIsHeld(h, s);
      GridMoves(h, n - 1, bits, sum);
      hide Held;
      var f := Frame(bits - sum, true);
      ReachOneMore(h, g, before, n - 1, sum, f);
      frames := before + [f];
    } else {
      var before := Reached(h, g, n - 1, bits);
      MaxIsHeld(h, Grid(h, n - 1, bits));
      ReachOneMore(h, g, before, n - 1, bits, Frame(0, true));
      frames := before + [Frame(0, true)];
    }
  }

  lemma AtMostOne(n: nat, u: real)
    requires u >= 0.0
    ensures n <= 1 ==> n as real * u <= u
  {
  }

  lemma ManyFrames(n: nat, u: real)
    requires u >= 1.0
    ensures n as real <= n as real * u
  {
    MultiplyAtMost(1.0, u, n as real);
  }

  lemma GridMoves(h: Input, n: nat, bits: int, sum: int)
    requires h.Valid()
    ensures Held(h, Grid(h, n, bits)) == Held(h, Grid(h, n, sum)) - (bits - sum) as real
  {
    hide TimesRate, OverRate, H264Hrd.InitialState;
    SumOverRate(h, sum as real, (bits - sum) as real);
    var s := Grid(h, n, sum);
    RateSum(h, s.trn - s.taf, OverRate(h, (bits - sum) as real));
  }

  /** An overshooting point holds at least a frame interval and at most the buffer. */
  lemma OvershootHolds(p: Params, g: Grain, n: nat, bits: int)
    requires p.Valid() && Spacious(H264Hrd.InputOf(p)) && Overshoots(p, g, n, bits)
    ensures var h := H264Hrd.InputOf(p);
            && 1.0 <= PerFrame(h) <= Held(h, Grid(h, n, bits)) <= BufferBits(p) as real
            && H264Hrd.Delay(h, Grid(h, n, bits)) < h.cpbSize90k && IsSize(g, bits)
  {
    hide TimesRate, Grid, H264Hrd.InputOf, H264Hrd.Delay, H264Hrd.Roomy, H264Hrd.MinFrameSize, RoundUp;
    var h := H264Hrd.InputOf(p);
    OvershootIsBounded(p, g, n, bits);
    BufferInBits(p);
    RateScaled(h, h.Cpb());
    RateSum(h, h.clockTick, h.clockTick);
    assert 720000.0 / h.Rate() > 0.0;
    RateOrder(h, h.clockTick + h.clockTick, h.Cpb() / 90000.0);
  }

  lemma MinIsNatural(h: Input, s: H264Hrd.State)
    requires h.Valid()
    ensures H264Hrd.MinFrameSize(h, s) >= 0
  {
    hide TimesRate, H264Hrd.Delay;
    var excess := H264Hrd.Delay(h, s) as real + h.clockTick * 90000.0 - h.Cpb();
    RateOrder(h, 0.0, excess / 90000.0);
    RateScaled(h, 0.0);
  }

  /** The same point in a later period of the grid. */
  lemma {:induction false} LaterPoint(p: Params, g: Grain, num: nat, den: nat, n: nat, bits: int, least: nat)
    returns (n': nat, bits': int)
    requires p.Valid() && p.cbr && HasFrameRate(p, num, den) && Overshoots(p, g, n, bits)
    ensures n' >= least && Overshoots(p, g, n', bits')
    decreases least - n
  {
    hide Overshoots;
    if n >= least {
      n', bits' := n, bits;
    } else {
      GridRepeats(p, g, num, den, n, bits);
      n', bits' := LaterPoint(p, g, num, den, n + num, bits + p.maxbps * den, least);
    }
  }

  /** Two more frames fill a buffer that can hold more than `capacity` bytes: one of the maximum size, and the first
      bits of the next. */
  lemma HeldIsFilled(h: Input, g: Grain, frames: seq<Frame>, n: nat, bits: int, capacity: nat)
    returns (more: seq<Frame>, n': nat, bits': int)
    requires h.Valid() && Spacious(h) && Reaches(h, g, frames, n, bits)
    requires Held(h, Grid(h, n, bits)) > capacity as real && IsSize(g, capacity)
    ensures Reaches(h, g, more, n', bits')
    ensures !Cpb.NeverOverflows(Schedule(Avc(h, H264Hrd.InitialState(h)), 0, more), capacity as real)
  {
    hide TimesRate, Grid, Reaches, H264Hrd.Roomy, PerFrame, H264Hrd.InitialState, H264Hrd.MaxFrameSize, H264Hrd.Unit;
    var s := Grid(h, n, bits);
    var f := DrainingFrame(h, g, s);
    ReachOneMore(h, g, frames, n, bits, f);
    GridStep(h, n, bits, f);
    var s' := Grid(h, n + 1, bits + f.bits);
    LowHasNoMinimum(h, s');
    MaxIsHeld(h, s');
    var next := Frame(8, true);
    ReachOneMore(h, g, frames + [f], n + 1, bits + f.bits, next);
    more, n', bits' := frames + [f] + [next], n + 2, bits + f.bits + 8;
    LastUnits(h, g, frames, n, bits, f, next);
    var u, v := H264Hrd.Unit(h, s, f), H264Hrd.Unit(h, s', next);
    UnitsOf(h, s, f);
    UnitsOf(h, s', next);
    hide Held, Schedule, RoundDown;
    var aus := Schedule(Avc(h, H264Hrd.InitialState(h)), 0, frames);
    Cpb.FullnessOfParts(aus, [u] + [v], u.removal);
    LaterRemoval(h, n, bits, f, next);
    TwoUnits(u, v, u.removal);
    assert Cpb.Fullness(aus + ([u] + [v]), u.removal) > capacity as real;
  }

  lemma UnitsOf(h: Input, s: H264Hrd.State, f: Frame)
    requires h.Valid() && h.cbr
    ensures var u := H264Hrd.Unit(h, s, f);
            && u.bits == f.bits && u.final == u.arrival + f.bits as real
            && u.removal == u.arrival + Held(h, s)
            && u.arrival == TimesRate(h, s.taf) && u.final == TimesRate(h, H264Hrd.Step(h, s, f).taf)
  {
    hide TimesRate, OverRate, H264Hrd.Delay;
    H264Hrd.UnitIsSerial(h, s, f);
    RateSum(h, s.trn, s.taf);
  }

  lemma {:induction false} TwoUnits(u: Cpb.AccessUnit, v: Cpb.AccessUnit, t: real)
    requires t <= u.removal && t <= v.removal
    ensures Cpb.Fullness([u] + [v], t) == Cpb.ArrivedBits(u, t) + Cpb.ArrivedBits(v, t)
  {
    assert ([u] + [v])[1..] == [v] && [v][1..] == [];
    assert Cpb.Fullness([v], t) == Cpb.ArrivedBits(v, t) + Cpb.Fullness([], t);
  }

  lemma LaterRemoval(h: Input, n: nat, bits: int, f: Frame, g: Frame)
    requires h.Valid() && h.cbr
    ensures H264Hrd.Unit(h, Grid(h, n, bits), f).removal <= H264Hrd.Unit(h, Grid(h, n + 1, bits + f.bits), g).removal
    ensures H264Hrd.Unit(h, Grid(h, n, bits), f).final == H264Hrd.Unit(h, Grid(h, n + 1, bits + f.bits), g).arrival
  {
    hide TimesRate, OverRate, H264Hrd.Delay, H264Hrd.InitialState;
    GridStep(h, n, bits, f);
    OneMore(n, h.clockTick);
    RateOrder(h, Grid(h, n, bits).trn, Grid(h, n + 1, bits + f.bits).trn);
  }

  lemma {:induction false} LastUnits(h: Input, grain: Grain, frames: seq<Frame>, n: nat, bits: int, f: Frame, g: Frame)
    requires h.Valid() && h.cbr && Reaches(h, grain, frames, n, bits)
    ensures var hrd := Avc(h, H264Hrd.InitialState(h));
            Schedule(hrd, 0, frames + [f] + [g])
            == Schedule(hrd, 0, frames)
               + ([H264Hrd.Unit(h, Grid(h, n, bits), f)] + [H264Hrd.Unit(h, Grid(h, n + 1, bits + f.bits), g)])
  {
    hide H264Hrd.InitialState, Grid, H264Hrd.Step, H264Hrd.Unit;
    var hrd, here := Avc(h, H264Hrd.InitialState(h)), Avc(h, Grid(h, n, bits));
    RunOfParts(hrd, 0, frames, [f] + [g]);
    RunOfParts(here, n, [f], [g]);
    OneFrame(here, n, f);
    GridStep(h, n, bits, f);
    OneFrame(Avc(h, Grid(h, n + 1, bits + f.bits)), n + 1, g);
    assert frames + [f] + [g] == frames + ([f] + [g]);
  }

  /** Every overshooting point is reached in some period of the grid. */
  lemma OvershootIsReached(p: Params, g: Grain, num: nat, den: nat, n: nat, bits: int)
    returns (frames: seq<Frame>, n': nat, bits': int)
    requires p.Valid() && HasFrameRate(p, num, den) && Spacious(H264Hrd.InputOf(p)) && Overshoots(p, g, n, bits)
    ensures Overshoots(p, g, n', bits') && Reaches(H264Hrd.InputOf(p), g, frames, n', bits')
  {
    hide Grid, H264Hrd.InputOf, H264Hrd.Delay, Held, PerFrame, HasFrameRate, Reaches, Overshoots;
    var h := H264Hrd.InputOf(p);
    n', bits' := LaterPoint(p, g, num, den, n, bits, BufferBits(p) + 1);
    OvershootHolds(p, g, n', bits');
    ManyFrames(n', PerFrame(h));
    frames := Reached(h, g, n', bits');
  }

  /** The smallest frame allowed takes it above the buffer. */
  lemma MinimumAfterOvershoot(p: Params, g: Grain, frames: seq<Frame>, n: nat, bits: int) returns (f: Frame)
    requires p.Valid() && Spacious(H264Hrd.InputOf(p)) && Overshoots(p, g, n, bits)
    requires Reaches(H264Hrd.InputOf(p), g, frames, n, bits)
    ensures Reaches(H264Hrd.InputOf(p), g, frames + [f], n + 1, bits + f.bits)
    ensures Held(H264Hrd.InputOf(p), Grid(H264Hrd.InputOf(p), n + 1, bits + f.bits)) > BufferBits(p) as real
  {
    hide TimesRate, Grid, H264Hrd.InputOf, H264Hrd.Delay, H264Hrd.Roomy, H264Hrd.MinFrameSize, H264Hrd.MaxFrameSize;
    hide Held, Reaches;
    var h := H264Hrd.InputOf(p);
    var s := Grid(h, n, bits);
    OvershootHolds(p, g, n, bits);
    HeldIsTime(h, s);
    MinIsNatural(h, s);
    H264Hrd.LegalSizeExists(h, s, true, 7);
    assert RoundUp(g, H264Hrd.MinFrameSize(h, s)) >= 0;
    assert H264Hrd.MinFrameSize(h, s) == 0 ==> RoundUp(g, H264Hrd.MinFrameSize(h, s)) == 0;
    f := Frame(RoundUp(g, H264Hrd.MinFrameSize(h, s)), true);
    ReachOneMore(h, g, frames, n, bits, f);
    GridStep(h, n, bits, f);
  }

  /** An overshooting point lies on a run that passes both queries and overflows the configured size. */
  lemma OvershootOverflows(p: Params, g: Grain, num: nat, den: nat, n: nat, bits: int) returns (frames: seq<Frame>)
    requires p.Valid() && HasFrameRate(p, num, den) && Spacious(H264Hrd.InputOf(p)) && Overshoots(p, g, n, bits)
    ensures IsRun(p, g, frames)
    ensures !Cpb.NeverOverflows(Schedule(Init(AVC, p), 0, frames), BufferBits(p) as real)
  {
    hide Grid, H264Hrd.InputOf, Held, Schedule, Cpb.NeverOverflows, Conforms, HasFrameRate, Overshoots, Spacious;
    hide H264Hrd.InitialState, AllSizes;
    var before, n', bits' := OvershootIsReached(p, g, num, den, n, bits);
    var f := MinimumAfterOvershoot(p, g, before, n', bits');
    frames, n', bits' := HeldIsFilled(H264Hrd.InputOf(p), g, before + [f], n' + 1, bits' + f.bits, BufferBits(p));
  }

  /** So does a first delay that does not fit, from the start. */
  lemma LongStartOverflows(p: Params, g: Grain) returns (frames: seq<Frame>)
    requires p.Valid() && Spacious(H264Hrd.InputOf(p)) && !FirstDelayFits(AVC, p)
    ensures IsRun(p, g, frames)
    ensures !Cpb.NeverOverflows(Schedule(Init(AVC, p), 0, frames), BufferBits(p) as real)
  {
    hide Grid, H264Hrd.InputOf, Held, Schedule, Cpb.NeverOverflows, Conforms, Spacious, H264Hrd.InitialState, AllSizes;
    var h := H264Hrd.InputOf(p);
    StartIsReached(h, g);
    GridStart(h);
    LongStartHolds(p);
    var n, bits;
    frames, n, bits := HeldIsFilled(h, g, [], 0, 0, BufferBits(p));
  }

  lemma LongStartHolds(p: Params)
    requires p.Valid() && Spacious(H264Hrd.InputOf(p)) && !FirstDelayFits(AVC, p)
    ensures Held(H264Hrd.InputOf(p), H264Hrd.InitialState(H264Hrd.InputOf(p))) > BufferBits(p) as real
  {
    hide TimesRate, H264Hrd.InitialState, H264Hrd.Delay, H264Hrd.Roomy, FromParams;
    InitMeaning(p);
    var h := H264Hrd.InputOf(p);
    SameRate(p);
    assert h.clockTick > 0.0 && 720000.0 / h.Rate() > 0.0;
    hide H264Hrd.InputOf;
    H264Hrd.FirstDelay(h);
    var s := H264Hrd.InitialState(h);
    RateOrder(h, (h.Cpb() + 1.0) / 90000.0, s.trn - s.taf);
    RateScaled(h, h.Cpb() + 1.0);
  }

  // ----- exactly when the guarantee is exact -----

  /** Frames of possible sizes that open with a buffering period and pass both queries. */
  ghost predicate IsRun(p: Params, g: Grain, frames: seq<Frame>)
    requires p.Valid()
  {
    AllSizes(g, frames) && Conforms(Init(AVC, p), 0, frames) && (frames != [] ==> frames[0].sei)
  }

  /** No run ever holds more than the configured size. */
  ghost predicate NeverAboveBuffer(p: Params, g: Grain)
    requires p.Valid()
  {
    forall frames: seq<Frame> :: IsRun(p, g, frames) ==>
      Cpb.NeverOverflows(Schedule(Init(AVC, p), 0, frames), BufferBits(p) as real)
  }

  /** The configured size is kept exactly if the first delay fits and none of the frames of a period has a grid point
      that overshoots, and, where the buffer has room for such a point to be reached, only then. That holds for
      frames of whole bytes, which are all the controller commits, and for frames of any number of bits. */
  lemma ExactCondition(p: Params, g: Grain, num: nat, den: nat)
    requires p.Valid() && p.cbr && HasFrameRate(p, num, den)
    ensures FirstDelayFits(AVC, p) && !CanOvershoot(p, g, num) ==> NeverAboveBuffer(p, g)
    ensures Spacious(H264Hrd.InputOf(p)) ==>
              (NeverAboveBuffer(p, g) <==> FirstDelayFits(AVC, p) && !CanOvershoot(p, g, num))
  {
    hide Overshoots, FirstDelayFits, Schedule, HasFrameRate, Cpb.NeverOverflows, Spacious, H264Hrd.InputOf;
    hide LeastBits, PerFrame, AllSizes;
    if Spacious(H264Hrd.InputOf(p)) && !FirstDelayFits(AVC, p) {
      var frames := LongStartOverflows(p, g);
      assert !NeverAboveBuffer(p, g);
    } else if Spacious(H264Hrd.InputOf(p)) && CanOvershoot(p, g, num) {
      var n: nat, bits: int :| n < num && Overshoots(p, g, n, bits);
      var frames := OvershootOverflows(p, g, num, den, n, bits);
      assert !NeverAboveBuffer(p, g);
    }
    if FirstDelayFits(AVC, p) && !CanOvershoot(p, g, num) {
      forall k: nat, b: int ensures !Overshoots(p, g, k, b) {
        NoneOvershoots(p, g, num, den, k, b);
      }
      forall frames: seq<Frame> | IsRun(p, g, frames)
        ensures Cpb.NeverOverflows(Schedule(Init(AVC, p), 0, frames), BufferBits(p) as real)
      {
        RunNeverOverflowsExactly(p, g, frames);
      }
    }
  }

  // ----- a configuration that does overshoot -----

  /** 27.648 Mbit/s CBR at 23.976 frames per second, 480 kB buffer, 192 kB initial fullness. */
  const CONFIG := Params(true, 27648000, 24000.0 / 1001.0, 480000, 192000)

  const FRAMES := [Frame(2232, true), Frame(8, false), Frame(3840064, false)]

  lemma ConfigInput()
    ensures CONFIG.Valid()
    ensures H264Hrd.InputOf(CONFIG) == Input(true, 27648000, 0x100_0000, 3753.75 / 90000.0, 12500, 5000.0)
  {
  }

  /** After two frames that pass both queries, the largest frame allowed next is 64 bits bigger than the buffer; it
      passes both queries too, and when it has arrived it is all in the buffer. */
  lemma HalfTickIsNeeded()
    ensures CONFIG.Valid() && FirstDelayFits(AVC, CONFIG) && IsStream(0, FRAMES) && AllSizes(Bytes, FRAMES)
    ensures FRAMES[2].bits == BufferBits(CONFIG) + 64
    ensures Conforms(Init(AVC, CONFIG), 0, FRAMES)
    ensures !Cpb.NeverOverflows(Schedule(Init(AVC, CONFIG), 0, FRAMES), BufferBits(CONFIG) as real)
  {
    ConfigInput();
    var h := H264Hrd.InputOf(CONFIG);
    var s0 := H264Hrd.InitialState(h);
    assert s0 == H264Hrd.State(5000.0 / 90000.0, 0.0);
    var s1 := H264Hrd.Step(h, s0, FRAMES[0]);
    assert s1 == H264Hrd.State(8753.75 / 90000.0, 2232.0 / 27648000.0);
    assert H264Hrd.Delay(h, s1) == 8746;
    var s2 := H264Hrd.Step(h, s1, FRAMES[1]);
    assert s2 == H264Hrd.State(12507.5 / 90000.0, 2240.0 / 27648000.0);
    assert H264Hrd.MaxFrameSize(h, s2, false) == 3840064;
    LargeUnit(h, s2);
    ThreeFrames(h, s0, s1, s2);
  }

  lemma LargeUnit(h: Input, s: H264Hrd.State)
    requires h.Valid() && h.cbr && h.bitrate == 27648000 && s == H264Hrd.State(12507.5 / 90000.0, 2240.0 / 27648000.0)
    ensures var u := H264Hrd.Unit(h, s, FRAMES[2]);
            u.final <= u.removal && u.arrival < u.final && u.bits == 3840064
  {
    UnitsOf(h, s, FRAMES[2]);
  }

  lemma {:induction false} ThreeFrames(h: Input, s0: H264Hrd.State, s1: H264Hrd.State, s2: H264Hrd.State)
    requires h.Valid() && h.cbr
    requires s1 == H264Hrd.Step(h, s0, FRAMES[0]) && s2 == H264Hrd.Step(h, s1, FRAMES[1])
    requires H264Hrd.MinFrameSize(h, s0) <= 2232 <= H264Hrd.MaxFrameSize(h, s0, true)
    requires H264Hrd.MinFrameSize(h, s1) <= 8 <= H264Hrd.MaxFrameSize(h, s1, false)
    requires H264Hrd.MinFrameSize(h, s2) <= 3840064 <= H264Hrd.MaxFrameSize(h, s2, false)
    requires var u := H264Hrd.Unit(h, s2, FRAMES[2]); u.arrival < u.final <= u.removal && u.bits == 3840064
    ensures Conforms(Avc(h, s0), 0, FRAMES)
    ensures !Cpb.NeverOverflows(Schedule(Avc(h, s0), 0, FRAMES), BufferBits(CONFIG) as real)
  {
    hide H264Hrd.MinFrameSize, H264Hrd.MaxFrameSize, H264Hrd.Step, H264Hrd.Unit;
    var hrd := Avc(h, s0);
    assert FRAMES == [FRAMES[0]] + ([FRAMES[1]] + [FRAMES[2]]);
    RunOfParts(hrd, 0, [FRAMES[0]], [FRAMES[1]] + [FRAMES[2]]);
    OneFrame(hrd, 0, FRAMES[0]);
    RunOfParts(Avc(h, s1), 1, [FRAMES[1]], [FRAMES[2]]);
    OneFrame(Avc(h, s1), 1, FRAMES[1]);
    OneFrame(Avc(h, s2), 2, FRAMES[2]);
    var u0, u1, u2 := H264Hrd.Unit(h, s0, FRAMES[0]), H264Hrd.Unit(h, s1, FRAMES[1]), H264Hrd.Unit(h, s2, FRAMES[2]);
    hide Schedule, Conforms;
    assert Schedule(hrd, 0, FRAMES) == [u0] + ([u1] + [u2]) == [u0] + [u1] + [u2];
    Cpb.FullnessOfParts([u0] + [u1], [u2], u2.final);
    OneUnit(u2, u2.final);
    assert Cpb.Fullness([u0] + [u1] + [u2], u2.final) > BufferBits(CONFIG) as real;
  }

  lemma {:induction false} OneUnit(u: Cpb.AccessUnit, t: real)
    requires t <= u.removal
    ensures Cpb.Fullness([u], t) == Cpb.ArrivedBits(u, t)
  {
    assert [u][1..] == [];
    assert Cpb.Fullness([], t) == 0.0;
  }
}
