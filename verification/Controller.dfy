/** Whole runs of the bit-rate controller: any sequence of reported frames, recodes, panics and errors. */
module Controller {
  import opened Numeric
  import opened HrdInput
  import opened HrdCodecSpec
  import opened RecodeProtocol
  import Cpb
  import Hrd
  import HevcHrd
  import QpMoves
  import RateParams
  import SlidingWindow

  /** The controller after initialisation; `quant` is the QP for the first frame. */
  function InitialState(codec: Hrd.Codec, hrd: Option<Params>, window: Option<WindowConfig>, quant: int): (st: State)
    requires hrd.Some? ==> hrd.value.Valid()
    requires window.Some? ==> window.value.size > 0
    ensures st.Valid()
  {
    State(
      NEW_CTX.(quant := quant),
      if hrd.Some? then Some(Spec(Hrd.Init(codec, hrd.value), NO_OVERFLOW_QUANT, NO_UNDERFLOW_QUANT)) else None,
      if window.Some?
      then var w := window.value; Some(SlidingWindow.Create(w.size, w.maxBitPerFrame, w.avgBitPerFrame, false))
      else None)
  }

  /** Nothing is in progress, no QP is excluded, and the decoder and the window are new. */
  lemma InitialStateMeaning(
    codec: Hrd.Codec, hrd: Option<Params>, window: Option<WindowConfig>, quant: int, x: int)
    requires hrd.Some? ==> hrd.value.Valid()
    requires window.Some? ==> window.value.size > 0
    ensures var st := InitialState(codec, hrd, window, quant);
            && st.ctx.quant == quant && !st.ctx.toRecode && !st.ctx.panic
            && st.ctx.encOrder == st.ctx.lastIEncOrder == 0
            && (st.spec.Some? <==> hrd.Some?) && (st.avg.Some? <==> window.Some?)
            && (hrd.Some? ==>
                  && st.spec.value.hrd == Hrd.Init(codec, hrd.value)
                  && (st.spec.value.MinQuant() <= x <= st.spec.value.MaxQuant() <==> 1 <= x <= 998))
            && (window.Some? ==>
                  var w := st.avg.value;
                  && w.size == window.value.size && w.maxWinBits == window.value.maxBitPerFrame * w.size
                  && w.avg == MinInt(window.value.avgBitPerFrame, window.value.maxBitPerFrame)
                  && !w.lookAhead && w.limit == w.LowestLimit()
                  && SlidingWindow.SumLast(w.history, w.size, 0) == w.size * (window.value.maxBitPerFrame / 3))
  {
    hide Hrd.Init;
    if window.Some? {
      var w := window.value;
      SlidingWindow.CreateMeaning(w.size, w.maxBitPerFrame, w.avgBitPerFrame, false);
    }
  }

  datatype WindowConfig = WindowConfig(size: nat, maxBitPerFrame: nat, avgBitPerFrame: nat)

  // ----- runs -----

  function After(par: Par, st: State, tries: seq<Try>): (st': State)
    requires par.Valid() && st.Valid()
    ensures st'.Valid()
    decreases |tries|
  {
    if tries == [] then st
    else
      StateStaysValid(par, st, tries[0]);
      After(par, UpdateFrame(par, st, tries[0].report, tries[0].hints).0, tries[1..])
  }

  lemma StateStaysValid(par: Par, st: State, t: Try)
    requires par.Valid() && st.Valid()
    ensures UpdateFrame(par, st, t.report, t.hints).0.Valid()
  {
    hide UpdateFrame;
    if UpdateFrame(par, st, t.report, t.hints).1 == Committed {
      CommitIsChecked(par, st, t.report, t.hints);
    } else {
      OnlyCommitsRecord(par, st, t.report, t.hints);
    }
  }

  predicate Commits(par: Par, st: State, t: Try)
    requires par.Valid() && st.Valid()
  {
    UpdateFrame(par, st, t.report, t.hints).1 == Committed
  }

  /** The frames a run commits, in order. */
  function CommittedFrames(par: Par, st: State, tries: seq<Try>): seq<Frame>
    requires par.Valid() && st.Valid()
    decreases |tries|
  {
    if tries == [] then []
    else
      StateStaysValid(par, st, tries[0]);
      var st' := UpdateFrame(par, st, tries[0].report, tries[0].hints).0;
      (if Commits(par, st, tries[0]) then [tries[0].report.Frame()] else [])
      + CommittedFrames(par, st', tries[1..])
  }

  /** The same frames as the sliding window records them. */
  function CommittedEntries(par: Par, st: State, tries: seq<Try>): seq<SlidingWindow.Entry>
    requires par.Valid() && st.Valid()
    decreases |tries|
  {
    if tries == [] then []
    else
      StateStaysValid(par, st, tries[0]);
      var r, hints := tries[0].report, tries[0].hints;
      var st1, st' := Begin(par, st, r), UpdateFrame(par, st, r, hints).0;
      (if Commits(par, st, tries[0])
       then [SlidingWindow.Entry(r.bits, st1.ctx.encOrder, st1.ctx.panic, hints.sceneStart || r.Intra(), r.numRecode)]
       else [])
      + CommittedEntries(par, st', tries[1..])
  }

  /** What the encoder owes the controller: frames come in encode order, each until it is committed, the
      first of them an IDR frame. A report of any other frame is part of a run if it is refused. Sizes, QPs,
      the number of tries, whether they are counted and every heuristic are free. */
  predicate InOrder(par: Par, st: State, next: nat, tries: seq<Try>)
    requires par.Valid() && st.Valid()
    decreases |tries|
  {
    tries == []
    || (var r := tries[0].report;
        && (UpdateFrame(par, st, r, tries[0].hints).1 == Undefined || (r.encOrder == next && (next == 0 ==> r.Idr())))
        && (StateStaysValid(par, st, tries[0]);
            var st' := UpdateFrame(par, st, r, tries[0].hints).0;
            InOrder(par, st', if Commits(par, st, tries[0]) then next + 1 else next, tries[1..])))
  }

  /** No first try of a frame is counted as a retry: a counted one finds its frame in the context. */
  predicate FirstTriesAreFirst(par: Par, st: State, tries: seq<Try>)
    requires par.Valid() && st.Valid()
    decreases |tries|
  {
    tries == []
    || (var r := tries[0].report;
        && (r.numRecode == 0 || st.ctx.encOrder == r.encOrder)
        && (StateStaysValid(par, st, tries[0]);
            FirstTriesAreFirst(par, UpdateFrame(par, st, r, tries[0].hints).0, tries[1..])))
  }

  // ----- the reference decoder over a run -----

  /** Every run commits only frames that pass both queries at their turn, and leaves the decoder as those
      frames leave it. */
  lemma {:induction false} RunIsAdmissible(par: Par, st: State, next: nat, tries: seq<Try>)
    requires par.Valid() && st.Valid() && par.rec && st.spec.Some?
    requires InOrder(par, st, next, tries)
    ensures var hrd, frames := st.spec.value.hrd, CommittedFrames(par, st, tries);
            && (next == 0 && frames != [] ==> frames[0].sei)
            && Hrd.EachWithinMax(hrd, next, frames) && Hrd.EachWithinMin(hrd, next, frames)
            && After(par, st, tries).spec.Some?
            && After(par, st, tries).spec.value.hrd == Hrd.After(hrd, next, frames)
    decreases |tries|
  {
    hide UpdateFrame, Hrd.Step, Hrd.WithinMax, Hrd.WithinMin;
    if tries != [] {
      var r, hints := tries[0].report, tries[0].hints;
      var st' := UpdateFrame(par, st, r, hints).0;
      StateStaysValid(par, st, tries[0]);
      if Commits(par, st, tries[0]) {
        CommitIsChecked(par, st, r, hints);
        RunIsAdmissible(par, st', next + 1, tries[1..]);
        var rest := CommittedFrames(par, st', tries[1..]);
        assert ([r.Frame()] + rest)[1..] == rest;
      } else {
        OnlyCommitsRecord(par, st, r, hints);
        RunIsAdmissible(par, st', next, tries[1..]);
        assert CommittedFrames(par, st, tries) == CommittedFrames(par, st', tries[1..]);
      }
    }
  }

  /** End to end: whatever the encoder produces and however often frames are sent back, the frames the
      controller commits never underflow the coded picture buffer and never overflow it. */
  lemma {:induction false} CommittedFramesConform(
    codec: Hrd.Codec, p: Params, window: Option<WindowConfig>, quant: int, par: Par, tries: seq<Try>)
    requires par.Valid() && par.rec
    requires p.Valid() && Hrd.StartsInside(codec, p)
    requires window.Some? ==> window.value.size > 0
    requires InOrder(par, InitialState(codec, Some(p), window, quant), 0, tries)
    requires |CommittedFrames(par, InitialState(codec, Some(p), window, quant), tries)| <= HevcHrd.MAX_ORDER
    ensures var frames := CommittedFrames(par, InitialState(codec, Some(p), window, quant), tries);
            var aus := Hrd.Schedule(Hrd.Init(codec, p), 0, frames);
            && Cpb.NeverUnderflows(aus)
            && Cpb.NeverOverflows(aus, Hrd.GrantedBits(codec, p))
  {
    hide Hrd.Init, Hrd.StartsInside, Hrd.Schedule, Hrd.EachWithinMax, Hrd.EachWithinMin, InOrder, CommittedFrames;
    hide Hrd.GrantedBits;
    var st := InitialState(codec, Some(p), window, quant);
    RunIsAdmissible(par, st, 0, tries);
    Hrd.ConformantRun(codec, p, CommittedFrames(par, st, tries));
  }

  // ----- from the configuration on -----

  /** The frames committed by a controller whose rates were rounded from `c`. */
  function ConfiguredFrames(
    c: RateParams.Ctrl, rates: RateParams.Rates, window: Option<WindowConfig>, quant: int, par: Par, tries: seq<Try>)
    : seq<Frame>
    requires par.Valid() && rates.hrd.Valid() && (window.Some? ==> window.value.size > 0)
  {
    CommittedFrames(par, InitialState(CodecOf(c), Some(rates.hrd), window, quant), tries)
  }

  function CodecOf(c: RateParams.Ctrl): Hrd.Codec { if c.avc then Hrd.AVC else Hrd.HEVC }

  /** A controller initialised from the configuration `c`, with the reference decoder on, and a run of it. */
  ghost predicate IsConfiguredRun(
    c: RateParams.Ctrl, rates: RateParams.Rates, window: Option<WindowConfig>, quant: int, par: Par, tries: seq<Try>)
  {
    && c.hrd && RateParams.RoundedFor(c, rates) && rates.hrd.Valid()
    && par.Valid() && par.rec == rates.rec && (window.Some? ==> window.value.size > 0)
    && InOrder(par, InitialState(CodecOf(c), Some(rates.hrd), window, quant), 0, tries)
    && |ConfiguredFrames(c, rates, window, quant, par, tries)| <= HevcHrd.MAX_ORDER
  }

  /** H.265: if the initial delay asked for is not above the buffer asked for, the committed frames never underflow
      the buffer nor exceed the kilobytes that were asked for. */
  lemma ConfiguredHevcRunConforms(
    c: RateParams.Ctrl, rates: RateParams.Rates, window: Option<WindowConfig>, quant: int, par: Par, tries: seq<Try>)
    requires !c.avc && c.initialDelayInKB <= c.bufferSizeInKB
    requires IsConfiguredRun(c, rates, window, quant, par, tries)
    ensures var frames := ConfiguredFrames(c, rates, window, quant, par, tries);
            var aus := Hrd.Schedule(Hrd.Init(Hrd.HEVC, rates.hrd), 0, frames);
            && Cpb.NeverUnderflows(aus)
            && Cpb.NeverOverflows(aus, (8000 * c.bufferSizeInKB) as real)
  {
    hide InOrder, CommittedFrames, InitialState, Hrd.Init, Hrd.Schedule, RateParams.RoundedSize, FromParams;
    hide RateParams.IsLargestScale, RateParams.LowBitsClear;
    RateParams.RoundedSizesKeepOrder(c.initialDelayInKB, c.bufferSizeInKB, rates.hrd.initialDelayInBytes,
                                     rates.hrd.bufferSizeInBytes, rates.cpbSizeScale);
    CommittedFramesConform(Hrd.HEVC, rates.hrd, window, quant, par, tries);
    RoundedSizeIsBelow(c.bufferSizeInKB, rates.hrd.bufferSizeInBytes, rates.cpbSizeScale);
  }

  lemma RoundedSizeIsBelow(kb: nat, bytes: nat, scale: nat)
    requires RateParams.RoundedSize(kb, bytes, scale)
    ensures bytes <= kb * 1000
  {
  }

  /** H.264, whose sizes need no rounding: the buffer must last a tick of the 90 kHz clock, which it does up to
      720 Mbit/s for every kilobyte, and in CBR the initial delay asked for must not be above the buffer asked for.
      The content may exceed that buffer by half a tick of bits in CBR and not at all in VBR. */
  lemma ConfiguredAvcRunConforms(
    c: RateParams.Ctrl, rates: RateParams.Rates, window: Option<WindowConfig>, quant: int, par: Par, tries: seq<Try>)
    requires c.avc && c.AskedBps() <= 720_000_000 * c.bufferSizeInKB
    requires c.rateControl == RateParams.CBR ==> c.initialDelayInKB <= c.bufferSizeInKB
    requires IsConfiguredRun(c, rates, window, quant, par, tries)
    ensures var frames := ConfiguredFrames(c, rates, window, quant, par, tries);
            var aus := Hrd.Schedule(Hrd.Init(Hrd.AVC, rates.hrd), 0, frames);
            && Cpb.NeverUnderflows(aus)
            && Cpb.NeverOverflows(aus, (8000 * c.bufferSizeInKB) as real
                 + if c.rateControl == RateParams.CBR then rates.hrd.maxbps as real / 180000.0 else 0.0)
  {
    hide InOrder, CommittedFrames, InitialState, Hrd.Init, Hrd.Schedule, RateParams.RoundedSize, FromParams;
    hide RateParams.IsLargestScale, RateParams.LowBitsClear, Hrd.StartsInside;
    RateParams.AvcSizesAreExact(c.bufferSizeInKB, rates.hrd.bufferSizeInBytes);
    RateParams.AvcSizesAreExact(c.initialDelayInKB, rates.hrd.initialDelayInBytes);
    AvcStartsInside(rates.hrd);
    CommittedFramesConform(Hrd.AVC, rates.hrd, window, quant, par, tries);
  }

  lemma AvcStartsInside(p: Params)
    requires p.Valid() && p.maxbps <= 720000 * p.bufferSizeInBytes
    requires p.cbr ==> p.initialDelayInBytes <= p.bufferSizeInBytes
    ensures Hrd.StartsInside(Hrd.AVC, p)
  {
    hide TimesRate, FromParams;
    InitMeaning(p);
    var h := FromParams(p);
    RateUnit(p);
    RateOrder(h, 1.0, h.Cpb() + 1.0);
    if p.cbr {
      Hrd.StartConditions(Hrd.AVC, p);
    }
  }

  lemma RateUnit(p: Params)
    requires p.Valid()
    ensures TimesRate(FromParams(p), 1.0) == p.maxbps as real
  {
  }

  // ----- leaving a panic -----

  /** Whatever frames went before, a frame padded to the reported minimum, which is empty in VBR, passes the decoder's
      check, so that even in panic the encoder has a way on; if the frame is within the size limit, its second
      or any later retry is committed. The buffer must have 7 spare bits for the padding. */
  lemma {:induction false} PanicCanBeLeft(
    codec: Hrd.Codec, p: Params, frames: seq<Frame>, par: Par, st: State, r: Report, hints: Hints)
    requires p.Valid() && Hrd.IsStream(0, frames) && Hrd.Roomy(Hrd.Init(codec, p), 7)
    requires Hrd.EachWithinMax(Hrd.Init(codec, p), 0, frames)
    requires par.Valid() && st.Valid() && st.spec.Some? && st.spec.value.hrd == Hrd.After(Hrd.Init(codec, p), 0, frames)
    requires r.encOrder == |frames| && r.bits == MaxInt(0, 8 * PaddedMinimum(st, r))
    ensures !p.cbr ==> r.bits == 0
    ensures var outcome := UpdateFrame(par, st, r, hints).1;
            && outcome != NotEnoughBuffer
            && (outcome != Undefined && r.numRecode >= 2 && r.bits <= FrameSizeLimit(par, st, r, hints) ==>
                  outcome == Committed)
  {
    hide Hrd.MaxFrameSize, Hrd.MinFrameSize, Hrd.Init, Hrd.After, Hrd.Roomy, Hrd.EachWithinMax, HardTarget;
    Hrd.RunCanContinue(codec, p, frames, r.Idr(), 7);
    PaddingReachesMinimum(st, r);
    VbrHasNoMinimum(codec, p, frames, r.Idr());
  }

  lemma {:induction false} VbrHasNoMinimum(codec: Hrd.Codec, p: Params, frames: seq<Frame>, sei: bool)
    requires p.Valid()
    ensures !p.cbr ==> Hrd.MinFrameSize(Hrd.After(Hrd.Init(codec, p), 0, frames), |frames|, sei) == 0
  {
  }

  /** Requests to recode leave the decoder as it was. */
  lemma {:induction false} SessionKeepsDecoder(par: Par, st: State, tries: seq<Try>)
    requires par.Valid() && st.Valid() && st.spec.Some? && IsSession(par, st, tries)
    ensures After(par, st, tries).spec.Some? && After(par, st, tries).spec.value.hrd == st.spec.value.hrd
    decreases |tries|
  {
    hide UpdateFrame;
    if tries != [] {
      OnlyCommitsRecord(par, st, tries[0].report, tries[0].hints);
      SessionKeepsDecoder(par, UpdateFrame(par, st, tries[0].report, tries[0].hints).0, tries[1..]);
    }
  }

  /** The whole life of a frame that ends in panic: it is sent back plainly at most as often as its first QP is below
      its maximum; after the panic it is padded to the reported minimum, and from its second retry on, if that is within
      the size limit, committed. So it is finished after at most two answers more. */
  lemma {:induction false} FrameIsFinished(
    codec: Hrd.Codec, p: Params, frames: seq<Frame>, par: Par, st: State, tries: seq<Try>, panic: Try, padded: Try,
    t: QpMoves.PicType)
    requires p.Valid() && Hrd.IsStream(0, frames) && Hrd.Roomy(Hrd.Init(codec, p), 7)
    requires Hrd.EachWithinMax(Hrd.Init(codec, p), 0, frames)
    requires par.Valid() && st.Valid() && st.spec.Some? && st.spec.value.hrd == Hrd.After(Hrd.Init(codec, p), 0, frames)
    requires IsSession(par, st, tries) && AllOfType(tries, t) && tries != [] && tries[0].report.numRecode == 0
    requires UpdateFrame(par, After(par, st, tries), panic.report, panic.hints).1.Recode?
    requires var st' := UpdateFrame(par, After(par, st, tries), panic.report, panic.hints).0;
             var r := padded.report;
             && st'.Valid() && st'.spec.Some?
             && r.encOrder == |frames| == st'.ctx.encOrder && r.numRecode >= 2
             && r.bits == MaxInt(0, 8 * PaddedMinimum(st', r)) <= FrameSizeLimit(par, st', r, padded.hints)
    ensures var st' := UpdateFrame(par, After(par, st, tries), panic.report, panic.hints).0;
            UpdateFrame(par, st', padded.report, padded.hints).1 == Committed
    ensures |tries| + 2 <= par.limits.Max(t) - tries[0].report.qp + 2
  {
    hide Hrd.Init, Hrd.After, Hrd.Roomy, Hrd.EachWithinMax, IsSession, FrameSizeLimit, PaddedMinimum;
    RecodingAlwaysTerminates(par, st, tries, t);
    SessionKeepsDecoder(par, st, tries);
    OnlyCommitsRecord(par, After(par, st, tries), panic.report, panic.hints);
    var st' := UpdateFrame(par, After(par, st, tries), panic.report, panic.hints).0;
    ErrorMeaning(par, st', padded.report, padded.hints);
    hide UpdateFrame, After;
    PanicCanBeLeft(codec, p, frames, par, st', padded.report, padded.hints);
  }

  // ----- the sliding window over a run -----

  /** No frame with order `next` or later has been recorded. */
  ghost predicate NextIsNew(w: SlidingWindow.Window, next: nat) {
    w.lastOrder == 0xFFFF_FFFF || w.lastOrder < next
  }

  function BitsOfFrames(frames: seq<Frame>): seq<nat> {
    if frames == [] then [] else [frames[0].bits] + BitsOfFrames(frames[1..])
  }

  lemma CommitRespectsWindow(par: Par, st: State, next: nat, t: Try)
    requires par.Valid() && st.Valid() && par.rec && st.avg.Some?
    requires Commits(par, st, t) && NextIsNew(st.avg.value, next) && next < 0xFFFF_FFFF
    requires t.report.encOrder == next && (t.report.numRecode == 0 || st.ctx.encOrder == next)
    ensures var w, r, st1 := st.avg.value, t.report, Begin(par, st, t.report);
            var sceneStart := t.hints.sceneStart || r.Intra();
            var w' := w.Record(r.bits, st1.ctx.encOrder, st1.ctx.panic, sceneStart, r.numRecode);
            && st1.ctx.encOrder != w.lastOrder
            && r.bits <= w.MaxFrameSize(st1.ctx.panic, sceneStart, r.numRecode)
            && UpdateFrame(par, st, r, t.hints).0.avg == Some(w')
            && NextIsNew(w', next + 1)
  {
    hide UpdateFrame;
    CommitIsChecked(par, st, t.report, t.hints);
    hide SlidingWindow.Window.MaxFrameSize, SlidingWindow.Window.AdaptedLimit;
  }

  lemma {:induction false} RunRespectsWindow(par: Par, st: State, next: nat, tries: seq<Try>)
    requires par.Valid() && st.Valid() && par.rec && st.avg.Some?
    requires NextIsNew(st.avg.value, next) && next + |CommittedFrames(par, st, tries)| <= HevcHrd.MAX_ORDER
    requires InOrder(par, st, next, tries) && FirstTriesAreFirst(par, st, tries)
    ensures var entries := CommittedEntries(par, st, tries);
            && SlidingWindow.EachWithinMax(st.avg.value, entries)
            && SlidingWindow.BitsOf(entries) == BitsOfFrames(CommittedFrames(par, st, tries))
            && After(par, st, tries).avg == Some(SlidingWindow.RecordAll(st.avg.value, entries))
    decreases |tries|
  {
    hide UpdateFrame, SlidingWindow.Window.Record, SlidingWindow.Window.MaxFrameSize, NextIsNew, Begin;
    if tries != [] {
      var r, hints := tries[0].report, tries[0].hints;
      var st' := UpdateFrame(par, st, r, hints).0;
      StateStaysValid(par, st, tries[0]);
      if Commits(par, st, tries[0]) {
        CommitRespectsWindow(par, st, next, tries[0]);
        RunRespectsWindow(par, st', next + 1, tries[1..]);
        var entries, frames := CommittedEntries(par, st, tries), CommittedFrames(par, st, tries);
        assert entries[1..] == CommittedEntries(par, st', tries[1..]);
        assert frames[1..] == CommittedFrames(par, st', tries[1..]);
      } else {
        OnlyCommitsRecord(par, st, r, hints);
        RunRespectsWindow(par, st', next, tries[1..]);
        assert CommittedEntries(par, st, tries) == CommittedEntries(par, st', tries[1..]);
        assert CommittedFrames(par, st, tries) == CommittedFrames(par, st', tries[1..]);
      }
    }
  }

  /** End to end: every `size` consecutive committed frames, counting the initial padding, stay below
      `size` bits over `maxBitPerFrame` each. */
  lemma {:induction false} CommittedFramesRespectWindow(
    codec: Hrd.Codec, hrd: Option<Params>, window: WindowConfig, quant: int, par: Par, tries: seq<Try>)
    requires par.Valid() && par.rec
    requires hrd.Some? ==> hrd.value.Valid()
    requires window.size > 0
    requires InOrder(par, InitialState(codec, hrd, Some(window), quant), 0, tries)
    requires FirstTriesAreFirst(par, InitialState(codec, hrd, Some(window), quant), tries)
    requires |CommittedFrames(par, InitialState(codec, hrd, Some(window), quant), tries)| <= HevcHrd.MAX_ORDER
    ensures var frames := CommittedFrames(par, InitialState(codec, hrd, Some(window), quant), tries);
            SlidingWindow.EveryWindowWithin(
              SlidingWindow.Padding(window.size, window.maxBitPerFrame) + BitsOfFrames(frames), window.size,
              MaxInt(window.maxBitPerFrame * window.size, 1) + window.size - 1, 0)
  {
    hide InOrder, FirstTriesAreFirst, CommittedFrames, CommittedEntries;
    hide SlidingWindow.EachWithinMax, SlidingWindow.EveryWindowWithin;
    hide Hrd.Init, After, SlidingWindow.RecordAll, SlidingWindow.Window.LowestLimit;
    var st := InitialState(codec, hrd, Some(window), quant);
    RunRespectsWindow(par, st, 0, tries);
    SlidingWindow.SlidingWindowCap(
      window.size, window.maxBitPerFrame, window.avgBitPerFrame, false, CommittedEntries(par, st, tries));
  }
}
