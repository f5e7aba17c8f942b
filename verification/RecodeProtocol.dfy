/** The commit/recode protocol of the bit-rate controller: each reported frame is committed to the
    reference decoder and the sliding window, or sent back with a new QP and narrower QP limits. */
module RecodeProtocol {
  import opened Numeric
  import opened QpTable
  import opened QpMoves
  import opened HrdCodecSpec
  import Hrd
  import HrdInput
  import SlidingWindow

  datatype Option<T> = None | Some(value: T)

  /** The parameters the protocol reads. */
  datatype Par = Par(rec: bool, panic: bool, quantOffset: int, limits: QpLimits, maxFrameSizeInBits: nat) {
    predicate Valid() {
      IsOffset(quantOffset) && limits.Valid() && (panic ==> rec)
    }
  }

  /** The protocol part of `BRC_Ctx`. The last three fields record the last intra frame: its encode order, and the QP
      it was given together with the least QP it could have been given. */
  datatype Ctx = Ctx(
    quant: int, quantMin: int, quantMax: int, toRecode: bool, panic: bool, encOrder: nat,
    lastIEncOrder: nat, lastIQpMin: int, lastIQpSet: int)

  const NEW_CTX := Ctx(0, 0, 0, false, false, 0, 0, 0, 0)

  datatype State = State(ctx: Ctx, spec: Option<Spec>, avg: Option<SlidingWindow.Window>) {
    predicate Valid() {
      && (spec.Some? ==> spec.value.hrd.h.Valid())
      && (avg.Some? ==> 1 <= avg.value.size <= |avg.value.history|)
    }
  }

  /** What is known of one encoding of a frame; `qp` includes the bit-depth offset, `cmplx` is the complexity of
      the frame, 0 if unknown. */
  datatype Report = Report(bits: nat, qp: nat, numRecode: nat, encOrder: nat, picType: PicType, cmplx: nat) {
    predicate Intra() { picType == IDR || picType == I }

    predicate Idr() { picType == IDR }

    function Frame(): HrdInput.Frame { HrdInput.Frame(bits, Idr()) }
  }

  /** The controller's tuning heuristics, free for the environment to choose: whether the frame starts a
      scene, the sizes it is compared with, whether the next frame is intra, the QP to suggest after a commit,
      and the power function. */
  datatype Hints = Hints(
    sceneStart: bool, bigLimit: real, smallLimit: real, beforeIntra: bool,
    fAbShort: real, fAbMax: real, nextQuant: Option<int>, power: Power)

  // ----- requests to recode -----

  /** A call of `SetRecodeParams`: the reason, the QP just used and the next one, and the limits around it. */
  datatype Request = Request(status: BrcStatus, qp: int, qpNew: int, minQP: int, maxQP: int) {
    predicate Big() { status == BIG_FRAME || status == PANIC_BIG_FRAME }

    predicate Small() { status == SMALL_FRAME || status == PANIC_SMALL_FRAME }

    /** The direction check: a frame that is too big never gets a smaller QP, nor the reverse. */
    predicate DirectionOk() {
      (Big() ==> qpNew >= qp) && (Small() ==> qpNew <= qp)
    }

    /** Whether the request is a plain one; any other request puts the frame into panic. */
    predicate Plain() {
      (status == BIG_FRAME && qpNew > qp) || (status == SMALL_FRAME && qpNew < qp)
    }

    function ReportedStatus(): BrcStatus {
      if Plain() || !DirectionOk() then status
      else if Big() then PANIC_BIG_FRAME
      else if Small() then PANIC_SMALL_FRAME
      else status
    }

    function Apply(ctx: Ctx): Ctx {
      var c := ctx.(toRecode := true);
      if !DirectionOk() || (!Big() && !Small()) then c
      else
        c.(quant := qpNew,
           quantMin := if Big() && Plain() then MaxInt(qp + 1, minQP) else minQP,
           quantMax := if Small() && Plain() then MinInt(qp - 1, maxQP) else maxQP,
           panic := ctx.panic || !Plain())
    }
  }

  /** What one call of `UpdateFrame` answers. */
  datatype Outcome = Undefined | NotEnoughBuffer | Recode(request: Request) | Committed

  // ----- one call, stage by stage -----

  function Begin(par: Par, st: State, r: Report): State {
    if r.numRecode > 0 then st
    else
      State(
        Ctx(r.qp, par.limits.Min(r.picType), par.limits.Max(r.picType), false, false, r.encOrder,
            if r.Intra() then r.encOrder else st.ctx.lastIEncOrder, st.ctx.lastIQpMin, st.ctx.lastIQpSet),
        if st.spec.Some? then Some(st.spec.value.ResetQuant()) else None,
        st.avg)
  }

  function HrdStatus(st: State, r: Report): BrcStatus
    requires st.Valid()
  {
    if st.spec.Some? then st.spec.value.CheckStatus(r.bits, r.encOrder, r.Idr()) else OK
  }

  /** The size in bytes a frame must be padded to when a panic says it is too small. */
  function PaddedMinimum(st: State, r: Report): int
    requires st.Valid() && st.spec.Some?
  {
    (Hrd.MinFrameSize(st.spec.value.hrd, r.encOrder, r.Idr()) + 7) / 8
  }

  function AfterCheck(st: State, r: Report): State
    requires st.Valid()
  {
    if st.spec.Some? then st.(spec := Some(st.spec.value.Checked(r.bits, r.encOrder, r.Idr(), r.qp))) else st
  }

  /** The tightest of the sliding window, the external frame limit and the controller's own ceiling. */
  function FrameSizeLimit(par: Par, st: State, r: Report, hints: Hints): int
    requires st.Valid()
  {
    var ceiling := 0xfff_ffff;
    var window :=
      if st.avg.None? then ceiling
      else MinInt(ceiling, st.avg.value.MaxFrameSize(st.ctx.panic, hints.sceneStart || r.Intra(), r.numRecode));
    if par.maxFrameSizeInBits > 0 then MinInt(window, par.maxFrameSizeInBits) else window
  }

  function QuantMax(st: State): int {
    if st.spec.Some? then MinInt(st.spec.value.MaxQuant(), st.ctx.quantMax) else st.ctx.quantMax
  }

  function QuantMin(st: State): int {
    if st.spec.Some? then MaxInt(st.spec.value.MinQuant(), st.ctx.quantMin) else st.ctx.quantMin
  }

  /** The QP of this intra frame was chosen from its complexity, and was the least possible. */
  predicate LeastQpWasSet(st: State, r: Report) {
    r.Intra() && r.cmplx > 0 && r.encOrder == st.ctx.lastIEncOrder && st.ctx.lastIQpSet == st.ctx.lastIQpMin
  }

  /** The recode checks of the first two tries, which compare the frame with sizes of the heuristics' choice. */
  function EarlyRequest(par: Par, st: State, r: Report, hints: Hints): Option<Request>
    requires par.Valid()
  {
    var lo, hi, qp, bits := QuantMin(st), QuantMax(st), r.qp, r.bits as real;
    var offset, most, mark := par.quantOffset, hints.bigLimit.Floor as real, hints.smallLimit.Floor as real;
    var big := GetNewQP(hints.power, bits, most, lo, hi, qp, offset, 1.0, false, true);
    var small := GetNewQP(hints.power, bits, mark, lo, hi, qp, offset, 0.78, false, true);
    var drift := GetNewQP(hints.power, hints.fAbShort, hints.fAbMax, lo, hi, qp, offset, 0.5, false, true);
    if r.numRecode >= 2 then None
    else if bits > hints.bigLimit && qp < hi && big > qp then
      Some(Request(BIG_FRAME, qp, big, lo, hi))
    else if LeastQpWasSet(st, r) && r.numRecode == 0 && bits < hints.smallLimit / 2.0 && qp > lo && small < qp then
      Some(Request(SMALL_FRAME, qp, small, lo, hi))
    else if bits > hints.bigLimit && qp == hi && !r.Intra() && par.panic && !st.ctx.panic && hints.beforeIntra then
      Some(Request(PANIC_BIG_FRAME, qp, qp, lo, hi))
    else if st.spec.Some? && r.numRecode == 0 && qp < hi && hints.fAbShort > hints.fAbMax && drift > qp then
      Some(Request(BIG_FRAME, qp, drift, lo, hi))
    else None
  }

  function GetFrameTargetSize(status: BrcStatus, minFrameSize: int, maxFrameSize: int): int {
    if status == BIG_FRAME then maxFrameSize * 3 / 4
    else if status == SMALL_FRAME then minFrameSize * 5 / 4
    else 0
  }

  /** The size a frame that violates a hard limit is steered to. */
  function HardTarget(st: State, status: BrcStatus, limit: int, r: Report): int
    requires st.Valid() && (r.bits > limit || st.spec.Some?)
  {
    if r.bits > limit then limit
    else
      var hrd := st.spec.value.hrd;
      GetFrameTargetSize(status, Hrd.MinFrameSize(hrd, r.encOrder, r.Idr()), Hrd.MaxFrameSize(hrd, r.encOrder, r.Idr()))
  }

  /** The checks no frame may escape: the reference decoder's bounds and the frame size limit. */
  function ForcedRequest(par: Par, st: State, status: BrcStatus, limit: int, r: Report, hints: Hints): Option<Request>
    requires par.Valid() && st.Valid() && (st.spec.None? ==> status == OK)
  {
    if !par.rec || (status == OK && r.bits <= limit) then None
    else
      var lo, hi, qp := st.ctx.quantMin, st.ctx.quantMax, r.qp;
      var reason := if r.bits > limit then BIG_FRAME else status;
      var target := HardTarget(st, status, limit, r) as real;
      var found := GetNewQP(hints.power, r.bits as real, target, lo, hi, qp, par.quantOffset, 1.0, true, true);
      Some(
        if found != qp && reason == SMALL_FRAME
        then Request(PANIC_SMALL_FRAME, qp, MaxInt(found, qp - 2), lo, hi)
        else Request(reason, qp, found, lo, hi))
  }

  function Decide(par: Par, st: State, status: BrcStatus, r: Report, hints: Hints): Option<Request>
    requires par.Valid() && st.Valid() && (st.spec.None? ==> status == OK)
  {
    var early := if par.rec then EarlyRequest(par, st, r, hints) else None;
    if early.Some? then early else ForcedRequest(par, st, status, FrameSizeLimit(par, st, r, hints), r, hints)
  }

  function Commit(st: State, r: Report, hints: Hints): State
    requires st.Valid()
  {
    var ctx := st.ctx.(toRecode := false);
    State(
      if hints.nextQuant.Some? then ctx.(quant := hints.nextQuant.value) else ctx,
      if st.spec.Some? then Some(st.spec.value.Update(r.bits, r.encOrder, r.Idr())) else None,
      if st.avg.Some?
      then Some(st.avg.value.Record(r.bits, ctx.encOrder, ctx.panic, hints.sceneStart || r.Intra(), r.numRecode))
      else None)
  }

  /** One call of `UpdateFrame`. */
  function UpdateFrame(par: Par, st: State, r: Report, hints: Hints): (State, Outcome)
    requires par.Valid() && st.Valid()
  {
    if par.rec && st.ctx.toRecode && st.ctx.encOrder != r.encOrder then (st, Undefined)
    else
      var st1 := Begin(par, st, r);
      var status, st2 := HrdStatus(st1, r), AfterCheck(st1, r);
      if status != OK && st2.ctx.panic then (st2, NotEnoughBuffer)
      else
        var request := Decide(par, st2, status, r, hints);
        if request.Some?
        then (st2.(ctx := request.value.Apply(st2.ctx)), Recode(request.value))
        else (Commit(st2, r, hints), Committed)
  }

  // ----- what the stages mean -----

  /** The first try of a frame starts from the limits of its type and forgets every QP excluded before; a retry starts
      from what the last try left. */
  lemma BeginMeaning(par: Par, st: State, r: Report, x: int)
    requires st.Valid()
    ensures var st', lim := Begin(par, st, r), par.limits;
            && (r.numRecode > 0 ==> st' == st)
            && (r.numRecode == 0 ==>
                  && st'.avg == st.avg && st'.ctx.quant == r.qp && st'.ctx.encOrder == r.encOrder
                  && !st'.ctx.toRecode && !st'.ctx.panic
                  && (r.Intra() ==> st'.ctx.quantMin == lim.minI && st'.ctx.quantMax == lim.maxI)
                  && (r.picType == P ==> st'.ctx.quantMin == lim.minP && st'.ctx.quantMax == lim.maxP)
                  && (r.picType == B ==> st'.ctx.quantMin == lim.minB && st'.ctx.quantMax == lim.maxB)
                  && st'.ctx.lastIEncOrder == (if r.Intra() then r.encOrder else st.ctx.lastIEncOrder)
                  && (st.spec.Some? <==> st'.spec.Some?)
                  && (st.spec.Some? ==>
                        && st'.spec.value.hrd == st.spec.value.hrd
                        && (st'.spec.value.MinQuant() <= x <= st'.spec.value.MaxQuant() <==> 1 <= x <= 998)))
  {
  }

  /** A frame is within the size limit exactly if it is below 2^28 bits and within the sliding window and the external
      limit, where there are any. */
  lemma LimitIsExact(par: Par, st: State, r: Report, hints: Hints)
    requires st.Valid()
    ensures r.bits <= FrameSizeLimit(par, st, r, hints)
            <==> && r.bits < 0x1000_0000
                 && (st.avg.Some? ==>
                       r.bits <= st.avg.value.MaxFrameSize(st.ctx.panic, hints.sceneStart || r.Intra(), r.numRecode))
                 && (par.maxFrameSizeInBits > 0 ==> r.bits <= par.maxFrameSizeInBits)
  {
    hide SlidingWindow.Window.MaxFrameSize;
  }

  /** The early checks allow the QPs of the context that the decoder does not exclude. */
  lemma EarlyLimits(st: State, x: int)
    ensures QuantMin(st) <= x <= QuantMax(st)
            <==> && st.ctx.quantMin <= x <= st.ctx.quantMax
                 && (st.spec.Some? ==> st.spec.value.underflowQuant < x < st.spec.value.overflowQuant)
  {
  }

  /** The QP the table search asks for after a miss. */
  function Searched(par: Par, hints: Hints, total: real, target: real, qp: nat, exponent: real): int
    requires par.Valid()
  {
    Qstep2QP(ScaledStep(hints.power, total, target, qp, par.quantOffset, exponent), par.quantOffset)
  }

  /** A miss upwards that is not forced: the next QP is the one the search asks for, at most half way to the highest,
      and in any case inside the limits. */
  lemma SearchedUp(par: Par, hints: Hints, total: real, target: real, lo: int, hi: int, qp: nat, exponent: real)
    requires par.Valid() && target <= total && lo <= qp + 1 <= hi
    ensures GetNewQP(hints.power, total, target, lo, hi, qp, par.quantOffset, exponent, false, true)
         == MaxInt(lo, MinInt(Searched(par, hints, total, target, qp, exponent), Half(hi + qp + 1)))
  {
    hide Qstep2QP, ScaledStep;
  }

  lemma SearchedDown(par: Par, hints: Hints, total: real, target: real, lo: int, hi: int, qp: nat, exponent: real)
    requires par.Valid() && total < target && lo <= qp - 1 <= hi
    ensures GetNewQP(hints.power, total, target, lo, hi, qp, par.quantOffset, exponent, false, true)
         == MinInt(hi, MaxInt(Searched(par, hints, total, target, qp, exponent), Half(lo + qp + 1)))
  {
    hide Qstep2QP, ScaledStep;
  }

  /** The early checks in full, for a frame in its limits on its first or second try, with `lo` to `hi` the QPs the
      decoder leaves. A frame above the limit of the heuristics is sent back as too big if and only if there is a higher
      QP and the search asks for one, or the decoder demands it; the next QP is the one the search asks for, but at
      most half way to the highest. The same, with the square root of the miss, for the running average on the first
      try, and mirrored for an intra frame that could have been given a lower QP. At the highest QP the last frames
      before an intra frame are skipped instead. */
  lemma EarlyRequestMeaning(par: Par, st: State, r: Report, hints: Hints)
    requires par.Valid() && st.Valid() && Ready(st, r) && 1.0 <= hints.smallLimit
    ensures var st2, bits, qp := AfterCheck(st, r), r.bits as real, r.qp;
            var lo, hi := QuantMin(st2), QuantMax(st2);
            var up := Searched(par, hints, bits, hints.bigLimit.Floor as real, qp, 1.0);
            var down := Searched(par, hints, bits, hints.smallLimit.Floor as real, qp, 0.78);
            var drift := Searched(par, hints, hints.fAbShort, hints.fAbMax, qp, 0.5);
            var big, small := MaxInt(lo, MinInt(up, Half(hi + qp + 1))), MinInt(hi, MaxInt(down, Half(lo + qp + 1)));
            var drifted := MaxInt(lo, MinInt(drift, Half(hi + qp + 1)));
            var request, early := EarlyRequest(par, st2, r, hints), r.numRecode < 2;
            var isBig := early && bits > hints.bigLimit && qp < hi && (up > qp || lo > qp);
            var leastSet := r.Intra() && r.cmplx > 0
                            && r.encOrder == st.ctx.lastIEncOrder && st.ctx.lastIQpSet == st.ctx.lastIQpMin;
            var isSmall := r.numRecode == 0 && leastSet && bits < hints.smallLimit / 2.0 && qp > lo && small < qp;
            var isSkipped := early && bits > hints.bigLimit && qp == hi && !r.Intra() && par.panic && hints.beforeIntra;
            var isDrift := r.numRecode == 0 && st.spec.Some? && qp < hi && hints.fAbShort > hints.fAbMax
                           && (drift > qp || lo > qp);
            request ==
              if isBig then Some(Request(BIG_FRAME, qp, big, lo, hi))
              else if isSmall then Some(Request(SMALL_FRAME, qp, small, lo, hi))
              else if isSkipped then Some(Request(PANIC_BIG_FRAME, qp, qp, lo, hi))
              else if isDrift then Some(Request(BIG_FRAME, qp, drifted, lo, hi))
              else None
  {
    hide Hrd.MaxFrameSize, Hrd.MinFrameSize, GetNewQP, Searched;
    var st2, bits, qp := AfterCheck(st, r), r.bits as real, r.qp;
    var lo, hi := QuantMin(st2), QuantMax(st2);
    if bits > hints.bigLimit && qp < hi {
      SearchedUp(par, hints, bits, hints.bigLimit.Floor as real, lo, hi, qp, 1.0);
    }
    if r.numRecode == 0 && bits < hints.smallLimit / 2.0 && qp > lo {
      SearchedDown(par, hints, bits, hints.smallLimit.Floor as real, lo, hi, qp, 0.78);
    }
    if hints.fAbShort > hints.fAbMax && qp < hi {
      SearchedUp(par, hints, hints.fAbShort, hints.fAbMax, lo, hi, qp, 0.5);
    }
  }

  // ----- every frame size that is committed was checked -----

  /** A committed frame passed the reference decoder's check and the frame size limit; everything recorded
      is that frame and nothing else. */
  lemma CommitIsChecked(par: Par, st: State, r: Report, hints: Hints)
    requires par.Valid() && st.Valid()
    requires UpdateFrame(par, st, r, hints).1 == Committed
    ensures var st1, st' := Begin(par, st, r), UpdateFrame(par, st, r, hints).0;
            && st'.Valid()
            && (st.spec.Some? ==>
                  var frame := r.Frame();
                  && st'.spec.Some?
                  && st'.spec.value.hrd == Hrd.Step(st.spec.value.hrd, r.encOrder, frame)
                  && st'.spec.value.overflowQuant == AfterCheck(st1, r).spec.value.overflowQuant
                  && st'.spec.value.underflowQuant == AfterCheck(st1, r).spec.value.underflowQuant
                  && (par.rec ==>
                        && Hrd.WithinMax(st.spec.value.hrd, r.encOrder, frame)
                        && Hrd.WithinMin(st.spec.value.hrd, r.encOrder, frame)))
            && (st.avg.Some? ==>
                  var sceneStart := hints.sceneStart || r.Intra();
                  && st'.avg == Some(
                       st.avg.value.Record(r.bits, st1.ctx.encOrder, st1.ctx.panic, sceneStart, r.numRecode))
                  && (par.rec ==> r.bits <= st.avg.value.MaxFrameSize(st1.ctx.panic, sceneStart, r.numRecode)))
            && (par.rec && par.maxFrameSizeInBits > 0 ==> r.bits <= par.maxFrameSizeInBits)
            && (st.spec.None? ==> st'.spec.None?) && (st.avg.None? ==> st'.avg.None?)
            && st'.ctx == st1.ctx.(toRecode := false,
                                   quant := if hints.nextQuant.Some? then hints.nextQuant.value else st1.ctx.quant)
  {
    hide Hrd.MaxFrameSize, Hrd.MinFrameSize, Hrd.Step, EarlyRequest, HardTarget, GetNewQP;
  }

  /** Any other answer leaves the decoder and the window as they were. */
  lemma OnlyCommitsRecord(par: Par, st: State, r: Report, hints: Hints)
    requires par.Valid() && st.Valid()
    requires UpdateFrame(par, st, r, hints).1 != Committed
    ensures var st' := UpdateFrame(par, st, r, hints).0;
            && st'.Valid() && st'.avg == st.avg && st'.spec.Some? == st.spec.Some?
            && (st.spec.Some? ==> st'.spec.value.hrd == st.spec.value.hrd)
            && (st'.ctx.encOrder == r.encOrder || st'.ctx.encOrder == st.ctx.encOrder)
    ensures var st1, (st', outcome) := Begin(par, st, r), UpdateFrame(par, st, r, hints);
            && (outcome == Undefined ==> st' == st)
            && (outcome != Undefined ==>
                  && st'.spec == AfterCheck(st1, r).spec
                  && st'.ctx.encOrder == st1.ctx.encOrder && st'.ctx.lastIEncOrder == st1.ctx.lastIEncOrder
                  && st'.ctx.lastIQpMin == st.ctx.lastIQpMin && st'.ctx.lastIQpSet == st.ctx.lastIQpSet)
            && (outcome == NotEnoughBuffer ==> st'.ctx == st1.ctx)
  {
    hide Hrd.MaxFrameSize, Hrd.MinFrameSize, EarlyRequest, HardTarget, GetNewQP;
  }

  /** A frame padded to the reported minimum passes the decoder's lower bound, with less than a byte to spare. */
  lemma PaddingReachesMinimum(st: State, r: Report)
    requires st.Valid() && st.spec.Some?
    ensures var padded := r.(bits := MaxInt(0, 8 * PaddedMinimum(st, r)));
            && Hrd.WithinMin(st.spec.value.hrd, r.encOrder, padded.Frame())
            && HrdStatus(st, padded) != SMALL_FRAME
            && (0 < padded.bits ==> padded.bits < Hrd.MinFrameSize(st.spec.value.hrd, r.encOrder, r.Idr()) + 8)
  {
    hide Hrd.MaxFrameSize, Hrd.MinFrameSize;
  }

  /** The direction check of `SetRecodeParams`, whose result `UpdateFrame` ignores, never fails: not for any
      state, report or heuristics. */
  lemma DirectionCheckNeverFails(par: Par, st: State, r: Report, hints: Hints)
    requires par.Valid() && st.Valid()
    requires UpdateFrame(par, st, r, hints).1.Recode?
    ensures var q := UpdateFrame(par, st, r, hints).1.request;
            q.DirectionOk() && (q.Big() || q.Small())
  {
    hide Hrd.MaxFrameSize, Hrd.MinFrameSize, GetNewQP, FrameSizeLimit;
    var st2 := AfterCheck(Begin(par, st, r), r);
    var status, limit := HrdStatus(Begin(par, st, r), r), FrameSizeLimit(par, st2, r, hints);
    if status != OK || r.bits > limit {
      NewQPIsStrict(hints.power, r.bits as real, HardTarget(st2, status, limit, r) as real,
                    st2.ctx.quantMin, st2.ctx.quantMax, r.qp, par.quantOffset, 1.0, true);
    }
  }

  /** What a request means to the encoder. The answer keeps the direction, and the next QP moves that way; a
      plain answer rules the QP just used out for good, any other one puts the frame into panic. */
  lemma AnswerMeaning(par: Par, st: State, r: Report, hints: Hints)
    requires par.Valid() && st.Valid()
    requires UpdateFrame(par, st, r, hints).1.Recode?
    ensures var (st', outcome) := UpdateFrame(par, st, r, hints);
            var q, ctx, answer := outcome.request, st'.ctx, outcome.request.ReportedStatus();
            && ctx.toRecode && ctx.quant == q.qpNew
            && (q.Big() <==> answer in {BIG_FRAME, PANIC_BIG_FRAME}) && (q.Big() ==> ctx.quant >= r.qp)
            && (q.Small() <==> answer in {SMALL_FRAME, PANIC_SMALL_FRAME}) && (q.Small() ==> ctx.quant <= r.qp)
            && (answer == BIG_FRAME ==> ctx.quant > r.qp && ctx.quantMin > r.qp)
            && (answer == SMALL_FRAME ==> ctx.quant < r.qp && ctx.quantMax < r.qp)
            && (ctx.panic <==> Begin(par, st, r).ctx.panic || answer in {PANIC_BIG_FRAME, PANIC_SMALL_FRAME})
  {
    hide Hrd.MaxFrameSize, Hrd.MinFrameSize, GetNewQP, FrameSizeLimit, HardTarget;
    DirectionCheckNeverFails(par, st, r, hints);
  }

  /** A frame is called too big only when it, or the average it drives, exceeds one of the sizes compared,
      and too small only when it is below the decoder's minimum or half the heuristics' low mark. */
  lemma RequestHasReason(par: Par, st: State, r: Report, hints: Hints)
    requires par.Valid() && st.Valid()
    requires UpdateFrame(par, st, r, hints).1.Recode?
    ensures var st1, q := Begin(par, st, r), UpdateFrame(par, st, r, hints).1.request;
            && (q.Big() ==>
                  || r.bits as real > hints.bigLimit || hints.fAbShort > hints.fAbMax
                  || r.bits > FrameSizeLimit(par, st1, r, hints)
                  || (st.spec.Some? && !Hrd.WithinMax(st.spec.value.hrd, r.encOrder, r.Frame())))
            && (q.Small() ==>
                  || r.bits as real < hints.smallLimit / 2.0
                  || (st.spec.Some? && !Hrd.WithinMin(st.spec.value.hrd, r.encOrder, r.Frame())))
  {
    hide Hrd.MaxFrameSize, Hrd.MinFrameSize, GetNewQP, HardTarget;
  }

  /** A frame outside the decoder's bounds is steered well inside them: a quarter below the maximum, at most
      a quarter above the minimum, and always away from the size it had. */
  lemma HardTargetIsInside(st: State, limit: int, r: Report)
    requires st.Valid() && st.spec.Some? && r.bits <= limit && HrdStatus(st, r) != OK
    ensures var status, hrd := HrdStatus(st, r), st.spec.value.hrd;
            var target := HardTarget(st, status, limit, r);
            && (status == BIG_FRAME ==>
                  target < r.bits && 4 * target <= 3 * Hrd.MaxFrameSize(hrd, r.encOrder, r.Idr()) < 4 * target + 4)
            && (status == SMALL_FRAME ==>
                  target > r.bits && 4 * target <= 5 * Hrd.MinFrameSize(hrd, r.encOrder, r.Idr()) < 4 * target + 4)
  {
    hide Hrd.MaxFrameSize, Hrd.MinFrameSize;
  }

  lemma TargetOfLimit(st: State, status: BrcStatus, limit: int, r: Report)
    requires st.Valid() && r.bits > limit
    ensures HardTarget(st, status, limit, r) == limit
  {
  }

  /** The forced request in full: it exists if and only if a hard limit is violated, the frame size limit comes before
      the decoder, and the next QP is the one the search asks for to meet the target, but at least a step on the way and
      at most half way to the limit of that side, if there is any; two steps at most for a frame that is too small. */
  lemma ForcedRequestMeaning(par: Par, st: State, r: Report, limit: int, hints: Hints)
    requires par.Valid() && st.Valid() && st.ctx.quantMin <= r.qp <= st.ctx.quantMax
    ensures var status, request := HrdStatus(st, r), ForcedRequest(par, st, HrdStatus(st, r), limit, r, hints);
            var lo, hi, qp := st.ctx.quantMin, st.ctx.quantMax, r.qp;
            && (request.Some? <==> par.rec && (status != OK || r.bits > limit))
            && (request.Some? ==>
                  var q := request.value;
                  var target := HardTarget(st, status, limit, r);
                  var found := Searched(par, hints, r.bits as real, target as real, qp, 1.0);
                  && q.qp == qp && q.minQP == lo && q.maxQP == hi
                  && (r.bits > limit || status == BIG_FRAME ==>
                        && q.status == BIG_FRAME
                        && q.qpNew == if qp == hi then qp else MaxInt(qp + 1, MinInt(found, Half(hi + qp + 1))))
                  && (r.bits <= limit && status == SMALL_FRAME ==>
                        && q.status == (if qp == lo then SMALL_FRAME else PANIC_SMALL_FRAME)
                        && q.qpNew == if qp == lo then qp
                                      else MaxInt(qp - 2, MinInt(qp - 1, MaxInt(found, Half(lo + qp + 1))))))
  {
    hide Hrd.MaxFrameSize, Hrd.MinFrameSize, HardTarget, Searched, GetNewQP;
    var status := HrdStatus(st, r);
    if status != OK || r.bits > limit {
      if r.bits > limit {
        TargetOfLimit(st, status, limit, r);
      } else {
        HardTargetIsInside(st, limit, r);
      }
      SearchedStrictly(par, hints, r.bits as real, HardTarget(st, status, limit, r) as real,
                       st.ctx.quantMin, st.ctx.quantMax, r.qp);
    }
  }

  lemma SearchedStrictly(par: Par, hints: Hints, total: real, target: real, lo: int, hi: int, qp: nat)
    requires par.Valid() && lo <= qp <= hi
    ensures var found := Searched(par, hints, total, target, qp, 1.0);
            GetNewQP(hints.power, total, target, lo, hi, qp, par.quantOffset, 1.0, true, true)
            == if total < target
               then if qp == lo then qp else MinInt(qp - 1, MaxInt(found, Half(lo + qp + 1)))
               else if qp == hi then qp else MaxInt(qp + 1, MinInt(found, Half(hi + qp + 1)))
  {
    hide Qstep2QP, ScaledStep;
  }

  /** What a request leaves of the QPs: `lo` to `hi` are those it was made for, for an early check the ones the decoder
      leaves and otherwise those of the context. After a plain answer a QP stays allowed if and only if it was and lies
      beyond the QP used, above it for a frame that was too big and below it for one that was too small; after any other
      answer all of them do. */
  lemma WhatStaysAllowed(par: Par, st: State, r: Report, hints: Hints, x: int)
    requires par.Valid() && st.Valid()
    requires UpdateFrame(par, st, r, hints).1.Recode?
    ensures var st2, (st', outcome) := AfterCheck(Begin(par, st, r), r), UpdateFrame(par, st, r, hints);
            var early, answer := EarlyRequest(par, st2, r, hints).Some?, outcome.request.ReportedStatus();
            var lo := if early then QuantMin(st2) else st2.ctx.quantMin;
            var hi := if early then QuantMax(st2) else st2.ctx.quantMax;
            st'.ctx.quantMin <= x <= st'.ctx.quantMax
            <==> lo <= x <= hi && (answer == BIG_FRAME ==> r.qp < x) && (answer == SMALL_FRAME ==> x < r.qp)
  {
    hide Hrd.MaxFrameSize, Hrd.MinFrameSize, GetNewQP, FrameSizeLimit, HardTarget;
    DirectionCheckNeverFails(par, st, r, hints);
  }

  /** One call in full: a frame that is not refused is sent back by the early checks, if any of them objects, else by
      the hard limits, if one is violated, and is committed otherwise. */
  lemma OutcomeMeaning(par: Par, st: State, r: Report, hints: Hints)
    requires par.Valid() && st.Valid()
    ensures var st1, (st', outcome) := Begin(par, st, r), UpdateFrame(par, st, r, hints);
            var st2 := AfterCheck(st1, r);
            var early, limit := EarlyRequest(par, st2, r, hints), FrameSizeLimit(par, st1, r, hints);
            && (outcome.Recode? ==>
                  && par.rec
                  && outcome.request == if early.Some? then early.value
                                        else ForcedRequest(par, st2, HrdStatus(st1, r), limit, r, hints).value)
            && (outcome == Committed <==>
                  && outcome != Undefined && outcome != NotEnoughBuffer
                  && (par.rec ==>
                        && early == None && r.bits <= limit
                        && (st.spec.Some? ==>
                              && Hrd.WithinMax(st.spec.value.hrd, r.encOrder, r.Frame())
                              && Hrd.WithinMin(st.spec.value.hrd, r.encOrder, r.Frame()))))
  {
    hide Hrd.MaxFrameSize, Hrd.MinFrameSize, EarlyRequest, HardTarget, GetNewQP, Commit;
  }

  /** A hard limit is answered with a plain retry exactly if the frame is too big and the QP can still rise.
      A frame below the decoder's minimum always ends in panic, with a QP at most two steps lower. */
  lemma ForcedRequestIsPlain(par: Par, st: State, r: Report, limit: int, hints: Hints)
    requires par.Valid() && st.Valid() && st.ctx.quantMin <= st.ctx.quantMax
    requires ForcedRequest(par, st, HrdStatus(st, r), limit, r, hints).Some?
    ensures var status := HrdStatus(st, r);
            var q := ForcedRequest(par, st, status, limit, r, hints).value;
            && (q.Plain() <==> (r.bits > limit || status == BIG_FRAME) && r.qp < st.ctx.quantMax)
            && (q.Big() <==> r.bits > limit || status == BIG_FRAME)
            && (q.Small() ==> r.qp - 2 <= q.qpNew <= r.qp)
            && (q.Small() && st.ctx.quantMin < r.qp ==> q.qpNew < r.qp)
  {
    hide Hrd.MaxFrameSize, Hrd.MinFrameSize, GetNewQP, HardTarget;
    var status := HrdStatus(st, r);
    NewQPForRequests(hints.power, r.bits as real, HardTarget(st, status, limit, r) as real,
                     st.ctx.quantMin, st.ctx.quantMax, r.qp, par.quantOffset, 1.0, true, true);
    NewQPIsStrict(hints.power, r.bits as real, HardTarget(st, status, limit, r) as real,
                  st.ctx.quantMin, st.ctx.quantMax, r.qp, par.quantOffset, 1.0, true);
    if r.bits > limit {
      TargetOfLimit(st, status, limit, r);
    } else {
      HardTargetIsInside(st, limit, r);
    }
  }

  /** A frame the decoder finds too big excludes its QP and every lower one from the early retries, a frame it finds
      too small its QP and every higher one; so an early retry never contradicts the decoder. */
  lemma EarlyRequestAgreesWithDecoder(par: Par, st: State, r: Report, hints: Hints)
    requires par.Valid() && st.Valid()
    ensures var st2, status := AfterCheck(st, r), HrdStatus(st, r);
            var request := EarlyRequest(par, st2, r, hints);
            && (status == BIG_FRAME ==> QuantMin(st2) > r.qp && (request.Some? ==> !request.value.Small()))
            && (status == SMALL_FRAME ==> QuantMax(st2) < r.qp && (request.Some? ==> !request.value.Big()))
  {
    hide Hrd.MaxFrameSize, Hrd.MinFrameSize, GetNewQP;
  }

  /** The two errors: another frame is reported while one must be recoded; a frame already in panic comes
      back outside the decoder's bounds. A first try never fails for want of buffer. */
  lemma ErrorMeaning(par: Par, st: State, r: Report, hints: Hints)
    requires par.Valid() && st.Valid()
    ensures var (st', outcome) := UpdateFrame(par, st, r, hints);
            && (outcome == Undefined <==> par.rec && st.ctx.toRecode && st.ctx.encOrder != r.encOrder)
            && (outcome == Undefined ==> st' == st)
            && (outcome == NotEnoughBuffer <==>
                  && outcome != Undefined && r.numRecode > 0 && st.ctx.panic && st.spec.Some?
                  && !(Hrd.WithinMax(st.spec.value.hrd, r.encOrder, r.Frame())
                       && Hrd.WithinMin(st.spec.value.hrd, r.encOrder, r.Frame())))
  {
    hide Hrd.MaxFrameSize, Hrd.MinFrameSize, Decide, Commit;
  }

  // ----- recoding terminates -----

  /** The context at the start of a try that follows the protocol: the frame was encoded at the QP the
      controller asked for, which is inside the current limits, and no panic was declared. */
  ghost predicate Ready(st: State, r: Report) {
    && st.ctx.quantMin <= st.ctx.quant == r.qp <= st.ctx.quantMax <= 255
    && !st.ctx.panic
    && (st.spec.Some? ==> st.spec.value.underflowQuant < st.ctx.quantMin)
    && (st.spec.Some? && r.numRecode == 0 ==> st.spec.value.overflowQuant == NO_OVERFLOW_QUANT)
  }

  /** Width of the QP interval left to try. */
  function Width(st: State): int { st.ctx.quantMax - st.ctx.quantMin }

  lemma FirstTryIsReady(par: Par, st: State, r: Report)
    requires par.Valid() && r.numRecode == 0
    requires par.limits.Min(r.picType) <= r.qp <= par.limits.Max(r.picType)
    ensures Ready(Begin(par, st, r), r)
    ensures Width(Begin(par, st, r)) == par.limits.Max(r.picType) - par.limits.Min(r.picType)
  {
  }

  lemma EarlyRequestIsSound(par: Par, st: State, r: Report, hints: Hints)
    requires par.Valid() && st.Valid() && Ready(st, r)
    ensures var st2 := AfterCheck(st, r);
            var request := EarlyRequest(par, st2, r, hints);
            request.Some? ==>
              && Sound(st2, request.value)
              && (request.value.Plain() || request.value.status == PANIC_BIG_FRAME)
  {
    hide Hrd.MaxFrameSize, Hrd.MinFrameSize, GetNewQP;
    var st2 := AfterCheck(st, r);
    var lo, hi, qp, bits := QuantMin(st2), QuantMax(st2), r.qp, r.bits as real;
    if lo <= hi {
      var most, mark := hints.bigLimit.Floor as real, hints.smallLimit.Floor as real;
      NewQPForRequests(hints.power, bits, most, lo, hi, qp, par.quantOffset, 1.0, false, true);
      NewQPForRequests(hints.power, bits, mark, lo, hi, qp, par.quantOffset, 0.78, false, true);
      NewQPForRequests(hints.power, hints.fAbShort, hints.fAbMax, lo, hi, qp, par.quantOffset, 0.5, false, true);
    }
  }

  /** A request passes the direction check, and if it is plain its new QP is inside limits that are
      narrower than the context's. */
  ghost predicate Sound(st: State, q: Request) {
    && q.DirectionOk() && (q.Big() || q.Small())
    && (q.Plain() ==>
          var ctx := q.Apply(st.ctx);
          && st.ctx.quantMin <= ctx.quantMin <= ctx.quant <= ctx.quantMax <= st.ctx.quantMax
          && ctx.quantMax - ctx.quantMin < st.ctx.quantMax - st.ctx.quantMin
          && !ctx.panic
          && (st.spec.Some? ==> st.spec.value.underflowQuant < ctx.quantMin))
  }

  lemma ForcedRequestIsSound(par: Par, st: State, r: Report, hints: Hints)
    requires par.Valid() && st.Valid() && Ready(st, r)
    ensures var st2 := AfterCheck(st, r);
            var request := ForcedRequest(par, st2, HrdStatus(st, r), FrameSizeLimit(par, st2, r, hints), r, hints);
            request.Some? ==> Sound(st2, request.value)
  {
    hide Hrd.MaxFrameSize, Hrd.MinFrameSize, GetNewQP, FrameSizeLimit;
    var st2 := AfterCheck(st, r);
    var status, limit := HrdStatus(st, r), FrameSizeLimit(par, st2, r, hints);
    if par.rec && (status != OK || r.bits > limit) {
      NewQPForRequests(hints.power, r.bits as real, HardTarget(st2, status, limit, r) as real,
                       st2.ctx.quantMin, st2.ctx.quantMax, r.qp, par.quantOffset, 1.0, true, true);
    }
  }

  /** One try of a frame by an encoder that follows the protocol: whatever is asked, the direction check
      succeeds; a plain request narrows the limits and leaves the context ready for the QP it asks for. */
  lemma RequestNarrows(par: Par, st: State, r: Report, hints: Hints)
    requires par.Valid() && st.Valid() && Ready(Begin(par, st, r), r)
    requires UpdateFrame(par, st, r, hints).1.Recode?
    ensures var (st', outcome) := UpdateFrame(par, st, r, hints);
            && st'.Valid()
            && outcome.request.DirectionOk()
            && st'.ctx.panic == !outcome.request.Plain()
            && (outcome.request.Plain() ==>
                  && Width(st') < Width(Begin(par, st, r)) && 0 <= Width(st')
                  && forall r' :: IsRetry(st', r') ==> Ready(Begin(par, st', r'), r'))
  {
    hide Hrd.MaxFrameSize, Hrd.MinFrameSize, GetNewQP, EarlyRequest, ForcedRequest, FrameSizeLimit;
    EarlyRequestIsSound(par, Begin(par, st, r), r, hints);
    ForcedRequestIsSound(par, Begin(par, st, r), r, hints);
  }

  /** The same frame again, counted as a retry and encoded at the QP the controller asked for. */
  predicate IsRetry(st: State, r: Report) {
    r.numRecode > 0 && IsSameFrame(st, r)
  }

  predicate IsSameFrame(st: State, r: Report) {
    r.encOrder == st.ctx.encOrder && r.qp == st.ctx.quant
  }

  datatype Try = Try(report: Report, hints: Hints)

  /** Tries of one frame, each at the QP asked for, that were all answered with a plain request to recode. */
  ghost predicate IsSession(par: Par, st: State, tries: seq<Try>)
    requires par.Valid()
    decreases |tries|
  {
    tries == []
    || (&& st.Valid()
        && var (st', outcome) := UpdateFrame(par, st, tries[0].report, tries[0].hints);
           && outcome.Recode? && outcome.request.Plain()
           && (|tries| > 1 ==> IsSameFrame(st', tries[1].report))
           && IsSession(par, st', tries[1..]))
  }

  /** The encoder reports how often it has re-encoded the frame. */
  ghost predicate Counted(tries: seq<Try>) {
    forall k :: 0 < k < |tries| ==> tries[k].report.numRecode > 0
  }

  /** All tries are of one frame type, and none of a frame whose complexity is known. */
  ghost predicate AllOfType(tries: seq<Try>, t: PicType) {
    forall k :: 0 <= k < |tries| ==> tries[k].report.picType == t && tries[k].report.cmplx == 0
  }

  /** The frame was first encoded inside the limits of its type. */
  predicate StartsInLimits(par: Par, r: Report) {
    r.numRecode == 0 && par.limits.Min(r.picType) <= r.qp <= par.limits.Max(r.picType)
  }

  lemma {:induction false} SessionIsShort(par: Par, st: State, tries: seq<Try>)
    requires par.Valid() && IsSession(par, st, tries) && tries != [] && Counted(tries)
    requires Ready(Begin(par, st, tries[0].report), tries[0].report)
    ensures |tries| <= Width(Begin(par, st, tries[0].report))
    decreases |tries|
  {
    hide UpdateFrame, Ready;
    var r, hints := tries[0].report, tries[0].hints;
    RequestNarrows(par, st, r, hints);
    if |tries| > 1 {
      var st' := UpdateFrame(par, st, r, hints).0;
      assert tries[1..][0] == tries[1];
      SessionIsShort(par, st', tries[1..]);
    }
  }

  /** Recoding with counted retries terminates whatever is known of a frame: first encoded inside its limits, and
      then at the QPs asked for, it is sent back plainly at most `max - min` times; the next answer is a commit, a
      panic or an error. */
  lemma {:induction false} RecodingTerminates(par: Par, st: State, tries: seq<Try>)
    requires par.Valid() && tries != [] && IsSession(par, st, tries) && Counted(tries)
    requires StartsInLimits(par, tries[0].report)
    ensures var t := tries[0].report.picType;
            |tries| <= par.limits.Max(t) - par.limits.Min(t)
  {
    FirstTryIsReady(par, st, tries[0].report);
    SessionIsShort(par, st, tries);
  }

  // ----- and it terminates if retries are not counted -----

  /** The QP of this try was handed out for a frame in progress, which records 1 as the least QP possible. */
  predicate HandedOut(par: Par, st: State, r: Report) {
    st.ctx.lastIQpMin == 1 - par.quantOffset && st.ctx.lastIQpSet == r.qp - par.quantOffset
  }

  /** The interface calls the retry count optional, and at 0 every try resets the limits. A plain request still asks
      for a higher QP: the only check that asks for a lower one is of intra frames of known complexity, before
      their QP has been handed out again. */
  lemma PlainRequestRaisesQP(par: Par, st: State, r: Report, hints: Hints)
    requires par.Valid() && st.Valid() && (r.Intra() && r.cmplx > 0 ==> HandedOut(par, st, r))
    requires UpdateFrame(par, st, r, hints).1.Recode? && UpdateFrame(par, st, r, hints).1.request.Plain()
    ensures var ctx, ctx' := Begin(par, st, r).ctx, UpdateFrame(par, st, r, hints).0.ctx;
            r.qp < ctx'.quant <= ctx'.quantMax <= ctx.quantMax
  {
    hide Hrd.MaxFrameSize, Hrd.MinFrameSize, GetNewQP, FrameSizeLimit, HardTarget;
    var st2 := AfterCheck(Begin(par, st, r), r);
    var qp, status, limit := r.qp, HrdStatus(Begin(par, st, r), r), FrameSizeLimit(par, st2, r, hints);
    var lo, hi := QuantMin(st2), QuantMax(st2);
    NewQPAtMostMax(hints.power, r.bits as real, hints.bigLimit.Floor as real, lo, hi, qp, par.quantOffset, 1.0, false);
    NewQPAtMostMax(hints.power, hints.fAbShort, hints.fAbMax, lo, hi, qp, par.quantOffset, 0.5, false);
    if status != OK || r.bits > limit {
      NewQPAtMostMax(hints.power, r.bits as real, HardTarget(st2, status, limit, r) as real,
                     st2.ctx.quantMin, st2.ctx.quantMax, qp, par.quantOffset, 1.0, true);
    }
  }

  lemma NewQPAtMostMax(
    power: Power, total: real, target: real, minQP: int, maxQP: int, qp: int, offset: int, exponent: real, strict: bool)
    requires IsOffset(offset) && 0 <= qp
    ensures var qpNew := GetNewQP(power, total, target, minQP, maxQP, qp, offset, exponent, strict, true);
            qpNew == qp || qpNew <= maxQP
  {
    hide Qstep2QP, ScaledStep;
  }

  lemma {:induction false} SessionRaisesQP(par: Par, st: State, tries: seq<Try>, t: PicType)
    requires par.Valid() && IsSession(par, st, tries) && tries != [] && AllOfType(tries, t)
    requires tries[0].report.numRecode == 0 || st.ctx.quantMax <= par.limits.Max(t)
    ensures |tries| <= par.limits.Max(t) - tries[0].report.qp
    decreases |tries|
  {
    hide UpdateFrame;
    var r, hints := tries[0].report, tries[0].hints;
    PlainRequestRaisesQP(par, st, r, hints);
    if |tries| > 1 {
      var st' := UpdateFrame(par, st, r, hints).0;
      assert tries[1..][0] == tries[1];
      SessionRaisesQP(par, st', tries[1..], t);
    }
  }

  /** Recoding always terminates: no record of a frame ever holds its complexity, so that a frame of any type is
      sent back plainly at most as often as its first QP is below its maximum, whether its retries are counted or
      not and wherever its first QP stands. */
  lemma {:induction false} RecodingAlwaysTerminates(par: Par, st: State, tries: seq<Try>, t: PicType)
    requires par.Valid() && tries != [] && IsSession(par, st, tries) && AllOfType(tries, t)
    requires tries[0].report.numRecode == 0
    ensures |tries| <= par.limits.Max(t) - tries[0].report.qp
  {
    SessionRaisesQP(par, st, tries, t);
  }
}
