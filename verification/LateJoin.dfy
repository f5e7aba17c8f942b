/** A decoder that joins a stream at a later buffering period. It knows only the delay reported there: it removes
    that frame so long after its first bit arrived, and every other frame as much later or earlier as that one. */
module LateJoin {
  import opened Numeric
  import opened HrdInput
  import opened Hrd
  import Cpb
  import H264Hrd
  import HevcHrd

  /** The same arrivals with every removal moved by `shift`. */
  function Shifted(aus: seq<Cpb.AccessUnit>, shift: real): (r: seq<Cpb.AccessUnit>)
    ensures |r| == |aus|
    ensures forall k :: 0 <= k < |aus| ==> r[k] == aus[k].(removal := aus[k].removal + shift)
  {
    if aus == [] then [] else [aus[0].(removal := aus[0].removal + shift)] + Shifted(aus[1..], shift)
  }

  /** The bits that arrive in the delay reported for the next frame. */
  function ReportedBits(hrd: Hrd, eo: nat): real
    requires hrd.h.Valid()
  {
    TimesRate(hrd.h, Delay(hrd, eo) as real) / 90000.0
  }

  /** How much later than the encoder's model the joining decoder removes every frame, in bit times. */
  function JoinShift(hrd: Hrd, eo: nat, f: Frame): real
    requires hrd.h.Valid()
  {
    ReportedBits(hrd, eo) - (Unit(hrd, eo, f).removal - Unit(hrd, eo, f).arrival)
  }

  /** What the joining decoder sees of a run that starts with its first frame. */
  function Joined(hrd: Hrd, eo: nat, frames: seq<Frame>): seq<Cpb.AccessUnit>
    requires hrd.h.Valid() && frames != []
  {
    Shifted(Schedule(hrd, eo, frames), JoinShift(hrd, eo, frames[0]))
  }

  /** The bits of the rounding: half a tick for H.264, a tick for H.265, and none in VBR, where arrival waits for
      the reported delay. */
  function RoundingBits(hrd: Hrd): real {
    if !hrd.h.cbr then 0.0 else hrd.h.Rate() / if hrd.Avc? then 180000.0 else 90000.0
  }

  /** The decoder is never ahead of the model by more than the rounding, nor behind it by more than a tick. */
  lemma JoinShiftIsSmall(hrd: Hrd, eo: nat, f: Frame)
    requires hrd.h.Valid() && Sound(hrd, eo) && f.sei
    ensures -RoundingBits(hrd) <= JoinShift(hrd, eo, f) <= hrd.h.Rate() / 90000.0
    ensures hrd.Hevc? && hrd.h.cbr ==> JoinShift(hrd, eo, f) <= 0.0
  {
    hide TimesRate, H264Hrd.Delay, HevcHrd.Delay, HevcHrd.Removal, HevcHrd.OnGrid, OverRate, H264Hrd.Step, HevcHrd.Step;
    var h := hrd.h;
    TickBits(h);
    match hrd {
      case Avc(h, s) =>
        AvcDelayRounds(h, s);
        var ticks, delay := 90000.0 * (s.trn - H264Hrd.ArrivalStart(h, s, true)), H264Hrd.Delay(h, s) as real;
        RateSum(h, s.trn, H264Hrd.ArrivalStart(h, s, true));
        RateScaled(h, ticks);
        assert s.trn - H264Hrd.ArrivalStart(h, s, true) == ticks / 90000.0;
        RateSum(h, delay, 0.5);
        RateSum(h, ticks, 1.0);
        RateOrder(h, ticks, delay + if h.cbr then 0.5 else 0.0);
        RateOrder(h, delay, ticks + 1.0);
      case Hevc(h, s) =>
        HevcHrd.NominalTimeDoesNotDrift(h, s, eo, true);
        HevcHrd.DelayMeaning(h, s, eo);
        var delay := HevcHrd.Delay(h, s, eo) as real;
        RateSum(h, HevcHrd.Removal(h, s, eo, true), delay);
        RateSum(h, delay, 1.0);
    }
  }

  lemma TickBits(h: Input)
    ensures TimesRate(h, 1.0) == h.Rate() && TimesRate(h, 0.5) == h.Rate() / 2.0
  {
  }

  /** What the reported delay of H.264 says of the time from the first bit to the removal. */
  lemma AvcDelayRounds(h: Input, s: H264Hrd.State)
    requires h.Valid() && H264Hrd.InTime(s)
    ensures var ticks := 90000.0 * (s.trn - H264Hrd.ArrivalStart(h, s, true));
            && ticks <= H264Hrd.Delay(h, s) as real + (if h.cbr then 0.5 else 0.0)
            && H264Hrd.Delay(h, s) as real <= ticks + 1.0
  {
  }

  /** The conformance bounds of C.3 on the delay reported by H.264: between the exact delay rounded down and up in
      CBR, and at most the latter in VBR. They hold exactly if the previous frame arrived before the removal. */
  lemma ReportedDelayIsConforming(h: Input, s: H264Hrd.State)
    requires h.Valid() && 1 <= h.cpbSize90k
    ensures var ticks, delay := 90000.0 * (s.trn - s.taf), H264Hrd.Delay(h, s) as real;
            && (0.0 < ticks <==> delay < ticks + 1.0)
            && (h.cbr && 0.0 < ticks ==> ticks - 1.0 < delay)
  {
  }

  /** The first frame has arrived when the joining decoder removes it if and only if it is no bigger than what
      arrives in the reported delay. For H.265 that is what the maximum query says; for H.264 a delay rounded down
      lets the query allow up to half a tick of bits more. */
  lemma FirstFrameIsOnTime(hrd: Hrd, eo: nat, f: Frame)
    requires hrd.h.Valid() && Sound(hrd, eo) && f.sei
    ensures var u := Joined(hrd, eo, [f])[0];
            && (u.final <= u.removal <==> f.bits as real <= ReportedBits(hrd, eo))
            && (hrd.Hevc? && WithinMax(hrd, eo, f) ==> u.final <= u.removal)
            && (hrd.Avc? && hrd.h.cbr ==>
                  MaxFrameSize(hrd, eo, true) as real <= ReportedBits(hrd, eo) + hrd.h.Rate() / 180000.0)
  {
    hide Unit, Delay, TimesRate, Sound, Step, MaxFrameSize;
    UnitMeaning(hrd, eo, f);
    assert Schedule(hrd, eo, [f])[0] == Unit(hrd, eo, f);
    JoinShiftIsSmall(hrd, eo, f);
    MaxIsStay(hrd, eo, f);
  }

  lemma MaxIsStay(hrd: Hrd, eo: nat, f: Frame)
    requires hrd.h.Valid() && f.sei
    ensures Unit(hrd, eo, f).bits == f.bits
    ensures hrd.Avc? ==> MaxFrameSize(hrd, eo, true) as real <= Unit(hrd, eo, f).removal - Unit(hrd, eo, f).arrival
    ensures hrd.Hevc? ==> MaxFrameSize(hrd, eo, true) as real <= ReportedBits(hrd, eo)
  {
    hide TimesRate, H264Hrd.Delay, HevcHrd.Delay, HevcHrd.Step, H264Hrd.Step;
    match hrd {
      case Avc(h, s) => RateSum(h, s.trn, H264Hrd.ArrivalStart(h, s, true));
      case Hevc(h, s) => RateScaled(h, HevcHrd.Delay(h, s, eo) as real);
    }
  }

  /** Every frame has arrived at most `late` after its removal. */
  ghost predicate LateByAtMost(aus: seq<Cpb.AccessUnit>, late: real) {
    forall k :: 0 <= k < |aus| ==> aus[k].final <= aus[k].removal + late
  }

  /** Joining anywhere: no frame is late by more than the rounding, none at all if the reported delay was not rounded
      down, as it never is in VBR; and the buffer holds at most a tick of bits more than it does for the encoder. */
  lemma {:induction false} JoinedRun(hrd: Hrd, eo: nat, frames: seq<Frame>)
    requires hrd.h.Valid() && Sound(hrd, eo) && IsStream(eo, frames) && frames != [] && frames[0].sei
    requires EachWithinMax(hrd, eo, frames)
    ensures var aus := Joined(hrd, eo, frames);
            && LateByAtMost(aus, RoundingBits(hrd))
            && (0.0 <= JoinShift(hrd, eo, frames[0]) ==> Cpb.NeverUnderflows(aus))
            && (!hrd.h.cbr ==> Cpb.NeverUnderflows(aus))
            && (Fits(hrd, eo) && EachWithinMin(hrd, eo, frames) && 0.0 <= Capacity(hrd.Avc?, hrd.h) ==>
                  Cpb.NeverOverflows(aus, Capacity(hrd.Avc?, hrd.h) + hrd.h.Rate() / 90000.0))
  {
    hide Sound, Fits, EachWithinMax, EachWithinMin, Capacity, JoinShift, Schedule, ArrivedUntil;
    var shift, aus := JoinShift(hrd, eo, frames[0]), Schedule(hrd, eo, frames);
    JoinShiftIsSmall(hrd, eo, frames[0]);
    RunNeverUnderflows(hrd, eo, frames);
    if Fits(hrd, eo) && EachWithinMin(hrd, eo, frames) && 0.0 <= Capacity(hrd.Avc?, hrd.h) {
      RunFits(hrd, eo, frames);
      ShiftedIsSerial(aus, ArrivedUntil(hrd), shift);
      Cpb.FullnessWithinCapacity(
        Shifted(aus, shift), ArrivedUntil(hrd), Capacity(hrd.Avc?, hrd.h) + hrd.h.Rate() / 90000.0);
    }
  }

  lemma {:induction false} ShiftedIsSerial(aus: seq<Cpb.AccessUnit>, start: real, shift: real)
    requires Cpb.Serial(aus, start)
    ensures Cpb.Serial(Shifted(aus, shift), start)
  {
    if aus != [] {
      ShiftedIsSerial(aus[1..], aus[0].final, shift);
    }
  }
}
