/** In CBR the two reference decoders are one machine in two notations: the H.264 decoder keeps exact
    times in seconds, the H.265 decoder keeps the arrival time in ticks multiplied by the bit rate and
    recomputes nominal times from the last buffering period. */
module HrdSimulation {
  import opened Numeric
  import opened HrdInput
  import opened Hrd
  import H264Hrd
  import HevcHrd

  /** Both decoders, before frame `eo`, describe the same buffer. */
  ghost predicate Related(h: Input, a: H264Hrd.State, e: HevcHrd.State, eo: nat) {
    && e.prevFinalArrival == 90000.0 * TimesRate(h, a.taf)
    && HevcHrd.Grid(h, eo) == 90000.0 * a.trn
  }

  lemma InitiallyRelated(p: Params)
    requires p.Valid() && p.cbr
    requires var init := FromParams(p).initCpbRemovalDelay; init == init.Floor as real >= 1.0
    ensures var h := FromParams(p);
            Related(h, H264Hrd.InitialState(H264Hrd.InputOf(p)), HevcHrd.InitialState(h), 0)
  {
    hide TimesRate, HevcHrd.Intervals, FromParams, H264Hrd.InitialState;
    var h := FromParams(p);
    InitMeaning(p);
    H264Hrd.InputOfFields(p);
    H264Hrd.InitialStateIntegral(H264Hrd.InputOf(p));
    RateScaled(h, 0.0);
    HevcHrd.FirstDelay(h, HevcHrd.InitialState(h));
  }

  /** One frame of any size, in or out of the queries' bounds, keeps the relation. */
  lemma StepKeepsRelation(p: Params, a: H264Hrd.State, e: HevcHrd.State, eo: nat, f: Frame)
    requires p.Valid() && p.cbr
    requires Related(FromParams(p), a, e, eo)
    ensures var h, h' := FromParams(p), H264Hrd.InputOf(p);
            h.Valid() && h'.Valid() && Related(h, H264Hrd.Step(h', a, f), HevcHrd.Step(h, e, eo, f), eo + 1)
  {
    hide TimesRate, HevcHrd.Intervals, HevcHrd.Removal, HevcHrd.Delay, HevcHrd.DelayMsb, HevcHrd.DelayMinus1;
    hide OverRate, HevcHrd.Grid, H264Hrd.Delay;
    var h, h' := FromParams(p), H264Hrd.InputOf(p);
    InitMeaning(p);
    HevcHrd.GridAdvances(h, eo);
    var time := OverRate(h', f.bits as real);
    SameRate(p, time);
    RateSum(h, a.taf, time);
  }

  lemma SameRate(p: Params, x: real)
    requires p.Valid()
    ensures TimesRate(H264Hrd.InputOf(p), x) == TimesRate(FromParams(p), x)
  {
  }

  /** As long as nothing has underflowed, the reported delays differ by at most one tick, the H.264 one
      being the larger, and a frame the H.265 query admits is admitted by the H.264 query. */
  lemma QueriesAgree(p: Params, a: H264Hrd.State, e: HevcHrd.State, eo: nat, sei: bool)
    requires p.Valid() && p.cbr
    requires Related(FromParams(p), a, e, eo)
    requires FromParams(p).Valid() && HevcHrd.Sound(FromParams(p), e, eo)
    ensures var h, h' := FromParams(p), H264Hrd.InputOf(p);
            && HevcHrd.Delay(h, e, eo) <= H264Hrd.Delay(h', a) <= HevcHrd.Delay(h, e, eo) + 1
            && HevcHrd.MaxFrameSize(h, e, eo) <= H264Hrd.MaxFrameSize(h', a, sei)
  {
    hide TimesRate, HevcHrd.OnGrid, HevcHrd.Delay, HevcHrd.Grid, HevcHrd.Intervals;
    var h, h' := FromParams(p), H264Hrd.InputOf(p);
    HevcHrd.DelayMeaning(h, e, eo);
    var delay := HevcHrd.Delay(h, e, eo) as real;
    var left := 90000.0 * (a.trn - a.taf);
    RateSum(h, a.trn, a.taf);
    ScaledBy90000(h, a.trn);
    ScaledBy90000(h, a.trn - a.taf);
    RateOrder(h, delay, left);
    RateOrder(h, left, delay + 1.0);
    RateScaled(h, delay);
    RateScaled(h, left);
    SameRate(p, a.trn - a.taf);
  }

  lemma ScaledBy90000(h: Input, x: real)
    ensures TimesRate(h, 90000.0 * x) == 90000.0 * TimesRate(h, x)
  {
  }

  /** Whole runs: fed the same frames, the decoders stay related, and as long as the H.265 maximum is
      respected their delays agree to a tick and the H.264 decoder does not underflow either. */
  lemma {:induction false} RunsAgree(p: Params, frames: seq<Frame>, sei: bool)
    requires p.Valid() && p.cbr && IsStream(0, frames)
    requires var init := FromParams(p).initCpbRemovalDelay; init == init.Floor as real >= 1.0
    requires EachWithinMax(Init(HEVC, p), 0, frames)
    ensures EachWithinMax(Init(AVC, p), 0, frames)
    ensures var a, e := After(Init(AVC, p), 0, frames), After(Init(HEVC, p), 0, frames);
            && Related(e.h, a.avc, e.hevc, |frames|)
            && Delay(e, |frames|) <= Delay(a, |frames|) <= Delay(e, |frames|) + 1
            && MaxFrameSize(e, |frames|, sei) <= MaxFrameSize(a, |frames|, sei)
  {
    hide TimesRate, HevcHrd.Sound, H264Hrd.InitialState, HevcHrd.InitialState, Related;
    InitMeaning(p);
    InitiallyRelated(p);
    HevcHrd.InitialStateSound(FromParams(p));
    RunsAgreeFrom(p, H264Hrd.InitialState(H264Hrd.InputOf(p)), HevcHrd.InitialState(FromParams(p)), 0, frames, sei);
  }

  lemma {:induction false} RunsAgreeFrom(
    p: Params, a: H264Hrd.State, e: HevcHrd.State, eo: nat, frames: seq<Frame>, sei: bool)
    requires p.Valid() && p.cbr && IsStream(eo, frames)
    requires FromParams(p).Valid() && H264Hrd.InputOf(p).Valid()
    requires Related(FromParams(p), a, e, eo) && HevcHrd.Sound(FromParams(p), e, eo)
    requires EachWithinMax(Hevc(FromParams(p), e), eo, frames)
    ensures EachWithinMax(Avc(H264Hrd.InputOf(p), a), eo, frames)
    ensures var a' := After(Avc(H264Hrd.InputOf(p), a), eo, frames);
            var e' := After(Hevc(FromParams(p), e), eo, frames);
            && Related(e'.h, a'.avc, e'.hevc, eo + |frames|)
            && Delay(e', eo + |frames|) <= Delay(a', eo + |frames|) <= Delay(e', eo + |frames|) + 1
            && MaxFrameSize(e', eo + |frames|, sei) <= MaxFrameSize(a', eo + |frames|, sei)
    decreases |frames|
  {
    hide TimesRate, HevcHrd.Sound, H264Hrd.Step, HevcHrd.Step, Related, FromParams;
    hide H264Hrd.MaxFrameSize, HevcHrd.MaxFrameSize, H264Hrd.Delay, HevcHrd.Delay;
    var h, h' := FromParams(p), H264Hrd.InputOf(p);
    if frames == [] {
      QueriesAgree(p, a, e, eo, sei);
    } else {
      var f := frames[0];
      QueriesAgree(p, a, e, eo, f.sei);
      StepKeepsRelation(p, a, e, eo, f);
      HevcHrd.MaxKeepsInTime(h, e, eo, f);
      assert IsStream(eo + 1, frames[1..]);
      RunsAgreeFrom(p, H264Hrd.Step(h', a, f), HevcHrd.Step(h, e, eo, f), eo + 1, frames[1..], sei);
    }
  }
}
