/** The controller object: frame records by display order, the context, the reference decoder and the
    sliding window, updated in place by the calls of an encoder. */
module BrcEncTool {
  import opened Numeric
  import opened QpTable
  import opened QpMoves
  import opened HrdCodecSpec
  import opened RecodeProtocol
  import Controller
  import Hrd
  import HrdInput
  import SlidingWindow

  datatype Status = Ok | NotInitialized | UndefinedBehavior | NotEnoughBuffer

  /** Type bits of a frame. */
  datatype FrameFlags = FrameFlags(idr: bool, i: bool, p: bool, ref: bool)

  function GetFrameType(flags: FrameFlags, level: nat, gopRefDist: nat): PicType {
    if flags.idr then IDR
    else if flags.i then I
    else if flags.p then P
    else if flags.ref && (level == 0 || gopRefDist == 1) then P // low-delay B
    else B
  }

  /** The strongest type bit decides; a frame without one is a low-delay P frame if others refer to it and it is at the
      bottom of the pyramid or has no B frames around it, and a B frame otherwise. */
  lemma FrameTypeMeaning(flags: FrameFlags, level: nat, gopRefDist: nat)
    ensures var t, lowDelay := GetFrameType(flags, level, gopRefDist), flags.ref && (level == 0 || gopRefDist == 1);
            && (t == IDR <==> flags.idr)
            && (t == I <==> !flags.idr && flags.i)
            && (t == P <==> !flags.idr && !flags.i && (flags.p || lowDelay))
            && (t == B <==> !flags.idr && !flags.i && !flags.p && !lowDelay)
  {
  }

  /** `BRC_FrameStruct` */
  datatype FrameStruct = FrameStruct(
    flags: FrameFlags, pyrLayer: nat, encOrder: nat, qp: nat, frameSize: nat, numRecode: nat, frameCmplx: nat,
    optimalFrameSizeInBytes: nat, qpDelta: int, qpModulation: QpModulation)

  const QP_UNDEFINED := 0x1111

  /** A record as its constructor leaves it. */
  const NEW_FRAME := FrameStruct(FrameFlags(false, false, false, false), 0, 0, 0, 0, 0, 0, 0, QP_UNDEFINED, NotDefined)

  /** No record holds the complexity of its frame. The object starts that way, and no method ever changes it. */
  ghost predicate NoComplexity(frames: map<nat, FrameStruct>) {
    forall d :: d in frames ==> frames[d].frameCmplx == 0
  }

  /** What the QP of the first frame is estimated from: the bits of a raw frame, the bits a frame may take on
      average, and the power function. */
  datatype Budget = Budget(rawSize: nat, bitsPerFrame: real, power: Power)

  function FirstQuant(par: Par, b: Budget): int
    requires par.Valid()
  {
    GetNewQP(b.power, b.rawSize as real, b.bitsPerFrame, par.limits.minI, par.limits.maxI, 1, par.quantOffset, 0.5,
             false, false)
  }

  /** The estimate is a legal intra QP if and only if a raw frame takes at least the average, or QP 1 is legal. */
  lemma FirstQuantInLimits(par: Par, b: Budget)
    requires par.Valid() && par.limits.Ordered()
    ensures par.limits.minI <= FirstQuant(par, b) <= par.limits.maxI
            <==> par.limits.minI == 1 || b.rawSize as real >= b.bitsPerFrame
  {
    hide GetNewQP;
    NewQPStaysInLimits(b.power, b.rawSize as real, b.bitsPerFrame, par.limits.minI, par.limits.maxI, 1,
                       par.quantOffset, 0.5, false, false);
  }

  /** The estimate itself, from a raw frame that takes at least the average: the legal intra QP nearest to the one whose
      step, squared, is larger than that of QP 1 by the ratio of the two sizes. */
  lemma FirstQuantMeaning(par: Par, b: Budget, step: real)
    requires par.Valid() && IsPower(b.power) && HasExponents(b.power) && 1 < par.limits.maxI <= 51 + par.quantOffset
    requires 0.0 < b.bitsPerFrame <= b.rawSize as real && par.limits.minI <= par.limits.maxI
    requires 0.0 <= step && step * step * b.bitsPerFrame == Qstep(1) * Qstep(1) * b.rawSize as real
    ensures var found := Qstep2QP(step, par.quantOffset);
            && 1 <= found
            && FirstQuant(par, b) == if found < par.limits.minI then par.limits.minI
                                     else if found > par.limits.maxI then par.limits.maxI else found
  {
    hide Qstep2QP, Qstep;
    StepScales(b.power, b.rawSize as real, b.bitsPerFrame, 1, par.quantOffset, 1.0, 1.0);
    SearchMovesTheRightWay(b.power, b.rawSize as real, b.bitsPerFrame, 1, par.quantOffset, 0.5);
    var scaled := ScaledStep(b.power, b.rawSize as real, b.bitsPerFrame, 1, par.quantOffset, 0.5);
    StepIsPositive(1, par.quantOffset);
    ScaledStepIsPositive(b, par.quantOffset);
    SameSquares(step, scaled, b.bitsPerFrame);
  }

  lemma ScaledStepIsPositive(b: Budget, offset: int)
    requires IsOffset(offset) && IsPower(b.power) && b.bitsPerFrame >= 0.0
    ensures 0.0 <= ScaledStep(b.power, b.rawSize as real, b.bitsPerFrame, 1, offset, 0.5)
  {
    hide QP2Qstep;
    StepIsPositive(1, offset);
    MultiplyAtMost(0.0, b.power(b.rawSize as real, b.bitsPerFrame, 0.5), QP2Qstep(1, offset));
  }

  lemma SameSquares(x: real, y: real, k: real)
    requires 0.0 <= x && 0.0 <= y && 0.0 < k && x * x * k == y * y * k
    ensures x == y
  {
    ScaledOrder(x * x, y * y, k);
    ScaledOrder(y * y, x * x, k);
    if x < y {
      SquareOrder(x, y);
    } else if y < x {
      SquareOrder(y, x);
    }
  }

  lemma SquareOrder(x: real, y: real)
    requires 0.0 <= x < y
    ensures x * x < y * y
  {
    MultiplyLess(0.0, y - x, y + x);
    assert (y - x) * (y + x) == y * y - x * x;
  }

  class BrcEncTool {
    var bDynamicInit: bool
    var bInit: bool
    var par: Par
    var gopRefDist: nat
    var ctx: Ctx
    var hrdSpec: HrdCodecSpec?
    var avg: SlidingWindow.AvgBitrate?
    var frames: map<nat, FrameStruct>

    ghost var Repr: set<object>

    ghost predicate Valid()
      reads this, Repr
    {
      && this in Repr && par.Valid()
      && (hrdSpec != null ==>
            hrdSpec in Repr && hrdSpec.Repr <= Repr && this !in hrdSpec.Repr && hrdSpec.Valid())
      && (avg != null ==>
            avg in Repr && avg.slidingWindow in Repr && avg.Valid())
      && (hrdSpec != null && avg != null ==> {avg, avg.slidingWindow} !! hrdSpec.Repr)
    }

    /** The state the protocol works on. */
    ghost function Abstract(): (st: State)
      requires Valid()
      reads this, Repr
      ensures st.Valid()
    {
      State(ctx,
            if hrdSpec != null then Some(hrdSpec.Abstract()) else None,
            if avg != null then Some(avg.Abstract()) else None)
    }

    constructor ()
      ensures Valid() && fresh(Repr) && !bInit && NoComplexity(frames)
    {
      bInit, bDynamicInit := false, false;
      par := Par(false, false, 0, QpLimits(1, 51, 1, 51, 1, 51), 0);
      gopRefDist := 1;
      ctx := NEW_CTX;
      hrdSpec, avg := null, null;
      frames := map[];
      Repr := {this};
    }

    method Init(
      codec: Hrd.Codec, hrd: Option<HrdInput.Params>, window: Option<Controller.WindowConfig>, newPar: Par,
      refDist: nat, budget: Budget)
      returns (status: Status)
      requires Valid() && newPar.Valid()
      requires hrd.Some? ==> hrd.value.Valid()
      requires window.Some? ==> window.value.size > 0
      modifies this
      ensures Valid() && fresh(Repr - old(Repr))
      ensures old(bInit) ==> status == UndefinedBehavior && Abstract() == old(Abstract())
      ensures !old(bInit) ==>
        && status == Ok && bInit && par == newPar && gopRefDist == refDist
        && frames == old(frames) && bDynamicInit == old(bDynamicInit)
        && Abstract() == Controller.InitialState(codec, hrd, window, FirstQuant(newPar, budget))
    {
      hide Controller.InitialState, FirstQuant;
      if bInit {
        return UndefinedBehavior;
      }
      Start(codec, hrd, window, newPar, refDist, FirstQuant(newPar, budget));
      bInit := true;
      status := Ok;
    }

    method Start(
      codec: Hrd.Codec, hrd: Option<HrdInput.Params>, window: Option<Controller.WindowConfig>, newPar: Par,
      refDist: nat, quant: int)
      requires Valid() && newPar.Valid()
      requires hrd.Some? ==> hrd.value.Valid()
      requires window.Some? ==> window.value.size > 0
      modifies this
      ensures Valid() && fresh(Repr - old(Repr))
      ensures par == newPar && gopRefDist == refDist
      ensures frames == old(frames) && bInit == old(bInit) && bDynamicInit == old(bDynamicInit)
      ensures Abstract() == Controller.InitialState(codec, hrd, window, quant)
    {
      hide Hrd.Init, SlidingWindow.Create, SlidingWindow.Window.Valid, SlidingWindow.AvgBitrate.Holds;
      hide Par.Valid, State.Valid;
      hide HrdCodecSpec.Valid, HrdCodecSpec.Abstract, SlidingWindow.AvgBitrate.Valid, SlidingWindow.AvgBitrate.Abstract;
      par, gopRefDist := newPar, refDist;
      hrdSpec := CreateHrd(codec, hrd);
      ctx := NEW_CTX.(quant := quant);
      avg := CreateWindow(window);
      Repr := {this} + (if hrdSpec != null then hrdSpec.Repr else {})
                     + (if avg != null then {avg, avg.slidingWindow} else {});
    }

    static method CreateHrd(codec: Hrd.Codec, hrd: Option<HrdInput.Params>) returns (spec: HrdCodecSpec?)
      requires hrd.Some? ==> hrd.value.Valid()
      ensures spec != null <==> hrd.Some?
      ensures spec != null ==>
        && spec.Valid() && fresh(spec.Repr)
        && spec.Abstract() == Spec(Hrd.Init(codec, hrd.value), NO_OVERFLOW_QUANT, NO_UNDERFLOW_QUANT)
    {
      spec := null;
      if hrd.Some? {
        spec := new HrdCodecSpec(codec, hrd.value);
      }
    }

    static method CreateWindow(window: Option<Controller.WindowConfig>) returns (avg: SlidingWindow.AvgBitrate?)
      requires window.Some? ==> window.value.size > 0
      ensures avg != null <==> window.Some?
      ensures avg != null ==>
        && avg.Valid() && fresh(avg) && fresh(avg.slidingWindow)
        && avg.Abstract()
           == SlidingWindow.Create(window.value.size, window.value.maxBitPerFrame, window.value.avgBitPerFrame, false)
    {
      avg := null;
      if window.Some? {
        var w := window.value;
        avg := new SlidingWindow.AvgBitrate(w.size, w.maxBitPerFrame, w.avgBitPerFrame, false);
      }
    }

    // ----- frame records -----

    method SetFrameStruct(dispOrder: nat, flags: FrameFlags, pyrLayer: nat, encOrder: nat)
      requires Valid()
      modifies this`frames
      ensures Valid() && Abstract() == old(Abstract())
      ensures
        var f := if dispOrder in old(frames) then old(frames)[dispOrder] else NEW_FRAME;
        var retries := if dispOrder in old(frames) then f.numRecode + 1 else 0;
        frames == old(frames)[dispOrder :=
          f.(flags := flags, pyrLayer := pyrLayer, encOrder := encOrder, numRecode := retries)]
      ensures NoComplexity(old(frames)) ==> NoComplexity(frames)
    {
      if dispOrder !in frames {
        frames := frames[dispOrder := NEW_FRAME.(flags := flags, pyrLayer := pyrLayer, encOrder := encOrder)];
      } else {
        var f := frames[dispOrder];
        frames := frames[dispOrder :=
          f.(flags := flags, pyrLayer := pyrLayer, encOrder := encOrder, numRecode := f.numRecode + 1)];
      }
    }

    method ReportEncResult(dispOrder: nat, codedFrameSize: nat, qpY: nat, numRecodesDone: nat) returns (status: Status)
      requires Valid()
      modifies this`frames
      ensures Valid() && Abstract() == old(Abstract())
      ensures status == (if dispOrder in old(frames) then Ok else UndefinedBehavior)
      ensures frames ==
        if dispOrder in old(frames)
        then old(frames)[dispOrder :=
               old(frames)[dispOrder].(frameSize := codedFrameSize, qp := qpY, numRecode := numRecodesDone)]
        else old(frames)
      ensures NoComplexity(old(frames)) ==> NoComplexity(frames)
    {
      if dispOrder !in frames {
        return UndefinedBehavior;
      }
      frames := frames[dispOrder :=
        frames[dispOrder].(frameSize := codedFrameSize, qp := qpY, numRecode := numRecodesDone)];
      status := Ok;
    }

    method ReportBufferHints(dispOrder: nat, optimalFrameSizeInBytes: nat)
      requires Valid()
      modifies this`frames
      ensures Valid() && Abstract() == old(Abstract())
      ensures
        var f := if dispOrder in old(frames) then old(frames)[dispOrder] else NEW_FRAME;
        frames == old(frames)[dispOrder := f.(optimalFrameSizeInBytes := optimalFrameSizeInBytes)]
      ensures NoComplexity(old(frames)) ==> NoComplexity(frames)
    {
      var f := if dispOrder in frames then frames[dispOrder] else NEW_FRAME;
      frames := frames[dispOrder := f.(optimalFrameSizeInBytes := optimalFrameSizeInBytes)];
    }

    method ReportGopHints(dispOrder: nat, qpDelta: int, qpModulation: QpModulation)
      requires Valid()
      modifies this`frames
      ensures Valid() && Abstract() == old(Abstract())
      ensures
        var f := if dispOrder in old(frames) then old(frames)[dispOrder] else NEW_FRAME;
        frames == old(frames)[dispOrder := f.(qpDelta := qpDelta, qpModulation := qpModulation)]
      ensures NoComplexity(old(frames)) ==> NoComplexity(frames)
    {
      var f := if dispOrder in frames then frames[dispOrder] else NEW_FRAME;
      frames := frames[dispOrder := f.(qpDelta := qpDelta, qpModulation := qpModulation)];
    }

    /** The QP for the next encoding of a frame. A frame in progress gets the QP the controller asked for, the very
        first one the QP of the initialisation or, if it is an intra frame of known complexity, `estimate`; for any
        other frame the heuristics choose `chosen` and the least QP `least`. Both are recorded for intra frames. */
    method ProcessFrame(dispOrder: nat, estimate: int, chosen: int, least: int) returns (status: Status, qpY: int)
      requires Valid()
      modifies this`ctx, this`bDynamicInit
      ensures Valid()
      ensures status ==
        if !bInit then NotInitialized else if dispOrder !in frames then UndefinedBehavior else Ok
      ensures status != Ok ==> ctx == old(ctx) && bDynamicInit == old(bDynamicInit)
      ensures status == Ok ==>
        var f := frames[dispOrder];
        var intra := f.flags.idr || f.flags.i;
        var estimated := !old(bDynamicInit) && intra && f.frameCmplx > 0;
        var inProgress := f.encOrder == old(ctx).encOrder || f.numRecode > 0;
        var quant := if estimated then estimate else old(ctx).quant;
        var qp := if inProgress then quant else chosen;
        var qpMin := if !inProgress then least else if estimated then estimate else 1;
        && bDynamicInit
        && qpY == qp - par.quantOffset
        && ctx == if intra
                  then old(ctx).(quant := quant, lastIQpMin := qpMin - par.quantOffset, lastIQpSet := qpY)
                  else old(ctx)
    {
      hide State.Valid, Par.Valid, HrdCodecSpec.Valid, SlidingWindow.AvgBitrate.Valid, NoComplexity;
      qpY := 0;
      if !bInit {
        return NotInitialized, qpY;
      }
      if dispOrder !in frames {
        return UndefinedBehavior, qpY;
      }
      var f := frames[dispOrder];
      var intra := f.flags.idr || f.flags.i;
      var qp, qpMin := 0, 1;
      if !bDynamicInit {
        if intra && f.frameCmplx > 0 {
          ctx := ctx.(quant := estimate);
          qpMin := estimate;
        }
        bDynamicInit := true;
      }
      if f.encOrder == ctx.encOrder || f.numRecode > 0 {
        qp := ctx.quant;
      } else {
        qp, qpMin := chosen, least;
      }
      qpY := qp - par.quantOffset;
      if intra {
        ctx := ctx.(lastIQpMin := qpMin - par.quantOffset, lastIQpSet := qpY);
      }
      status := Ok;
    }

    // ----- recording an encoded frame -----

    function ReportOf(f: FrameStruct): Report
      requires par.Valid()
      reads this
    {
      Report(f.frameSize * 8, f.qp + par.quantOffset, f.numRecode, f.encOrder,
             GetFrameType(f.flags, f.pyrLayer, gopRefDist), f.frameCmplx)
    }

    /** The decoder sees the coded bytes in bits and a buffering period at every IDR frame and at no other;
        the intra rules apply to IDR and I frames. Retries, order and QP are those of the record. */
    lemma ReportMeaning(f: FrameStruct)
      requires par.Valid()
      ensures ReportOf(f).Frame() == HrdInput.Frame(8 * f.frameSize, f.flags.idr)
      ensures ReportOf(f).Intra() <==> f.flags.idr || f.flags.i
      ensures ReportOf(f).qp - par.quantOffset == f.qp
      ensures ReportOf(f).numRecode == f.numRecode && ReportOf(f).encOrder == f.encOrder
      ensures ReportOf(f).picType == B <==>
        !f.flags.idr && !f.flags.i && !f.flags.p && !(f.flags.ref && (f.pyrLayer == 0 || gopRefDist == 1))
      ensures ReportOf(f).bits == 8 * f.frameSize && ReportOf(f).cmplx == f.frameCmplx
    {
    }

    /** No report the object works on carries a complexity, so the check for frames that are too small is never
        entered: of the recode checks of the first two tries, those that remain ask for a higher QP. */
    lemma NoReportHasComplexity(dispOrder: nat, hints: Hints)
      requires Valid() && NoComplexity(frames) && dispOrder in frames
      ensures var r := ReportOf(frames[dispOrder]);
              && r.cmplx == 0
              && (var request := EarlyRequest(par, Abstract(), r, hints); request.Some? ==> !request.value.Small())
    {
      hide GetNewQP, GetFrameType;
    }

    method UpdateFrame(dispOrder: nat, hints: Hints)
      returns (status: Status, brcStatus: BrcStatus, minFrameSize: int)
      requires Valid()
      modifies Repr
      ensures Valid() && Repr == old(Repr) && par == old(par) && frames == old(frames)
      ensures bInit == old(bInit) && bDynamicInit == old(bDynamicInit) && gopRefDist == old(gopRefDist)
      ensures !old(bInit) ==> status == NotInitialized && Abstract() == old(Abstract())
      ensures old(bInit) && dispOrder !in old(frames) ==> status == UndefinedBehavior && Abstract() == old(Abstract())
      ensures old(bInit) && dispOrder in old(frames) ==>
        var (st', outcome) :=
          RecodeProtocol.UpdateFrame(par, old(Abstract()), old(ReportOf(frames[dispOrder])), hints);
        && Abstract() == st'
        && status == (match outcome
                      case Undefined => UndefinedBehavior
                      case NotEnoughBuffer => Status.NotEnoughBuffer
                      case Recode(_) => Ok
                      case Committed => Ok)
        && (outcome.Recode? ==> brcStatus == outcome.request.ReportedStatus())
        && (outcome == Committed && par.rec ==> brcStatus == OK)
        && (status == Ok && hrdSpec != null ==>
              minFrameSize == PaddedMinimum(old(Abstract()), old(ReportOf(frames[dispOrder]))))
    {
      hide RecodeProtocol.UpdateFrame, PaddedMinimum, Request.ReportedStatus, GetFrameType;
      hide State.Valid, Par.Valid, HrdCodecSpec.Valid, HrdCodecSpec.Abstract, SlidingWindow.AvgBitrate.Valid;
      brcStatus, minFrameSize := OK, 0;
      if !bInit {
        return NotInitialized, brcStatus, minFrameSize;
      }
      if dispOrder !in frames {
        return UndefinedBehavior, brcStatus, minFrameSize;
      }
      status, brcStatus, minFrameSize := UpdateReported(ReportOf(frames[dispOrder]), hints);
    }

    /** The same for a frame that is known. */
    method UpdateReported(r: Report, hints: Hints) returns (status: Status, brcStatus: BrcStatus, minFrameSize: int)
      requires Valid()
      modifies Repr
      ensures Valid() && Repr == old(Repr)
      ensures SameParts(old(hrdSpec), old(avg), old(par), old(frames), old(gopRefDist), old(bInit), old(bDynamicInit))
      ensures
        var (st', outcome) := RecodeProtocol.UpdateFrame(par, old(Abstract()), r, hints);
        && Abstract() == st'
        && status == (match outcome
                      case Undefined => UndefinedBehavior
                      case NotEnoughBuffer => Status.NotEnoughBuffer
                      case Recode(_) => Ok
                      case Committed => Ok)
        && (outcome.Recode? ==> brcStatus == outcome.request.ReportedStatus())
        && (outcome == Committed && par.rec ==> brcStatus == OK)
        && (status == Ok && hrdSpec != null ==> minFrameSize == PaddedMinimum(old(Abstract()), r))
    {
      hide Begin, HrdStatus, AfterCheck, RecodeProtocol.Decide, Commit, PaddedMinimum;
      hide Request.Apply, Request.ReportedStatus, State.Valid, Par.Valid, HrdCodecSpec.Valid;
      hide HrdCodecSpec.Abstract, SlidingWindow.AvgBitrate.Valid;
      brcStatus, minFrameSize := OK, 0;
      if par.rec && ctx.toRecode && ctx.encOrder != r.encOrder {
        return UndefinedBehavior, brcStatus, minFrameSize;
      }
      BeginFrame(r);
      brcStatus := CheckHrd(r);
      if brcStatus != OK && ctx.panic {
        return Status.NotEnoughBuffer, brcStatus, minFrameSize;
      }
      minFrameSize := GetPaddedMinimum(r);
      brcStatus := Answer(r, brcStatus, hints);
      status := Ok;
    }

    /** After the checks: the frame is sent back or committed. */
    method Answer(r: Report, checked: BrcStatus, hints: Hints) returns (brcStatus: BrcStatus)
      requires Valid() && (hrdSpec == null ==> checked == OK)
      modifies Repr
      ensures Valid() && Repr == old(Repr)
      ensures SameParts(old(hrdSpec), old(avg), old(par), old(frames), old(gopRefDist), old(bInit), old(bDynamicInit))
      ensures
        var request := RecodeProtocol.Decide(par, old(Abstract()), checked, r, hints);
        if request.Some?
        then Abstract() == old(Abstract()).(ctx := request.value.Apply(old(ctx)))
             && brcStatus == request.value.ReportedStatus()
        else Abstract() == Commit(old(Abstract()), r, hints) && (par.rec ==> brcStatus == OK)
    {
      hide RecodeProtocol.Decide, Commit, Request.Apply, Request.ReportedStatus, State.Valid, Par.Valid;
      hide HrdCodecSpec.Valid, HrdCodecSpec.Abstract, SlidingWindow.AvgBitrate.Valid;
      brcStatus := checked;
      var request := Decide(r, brcStatus, hints);
      if request.Some? {
        brcStatus := SetRecodeParams(request.value);
      } else {
        CommitFrame(r, hints);
      }
    }

    /** The first try of a frame resets the limits to those of its type. */
    method BeginFrame(r: Report)
      requires Valid()
      modifies Repr
      ensures Valid() && Repr == old(Repr)
      ensures SameParts(old(hrdSpec), old(avg), old(par), old(frames), old(gopRefDist), old(bInit), old(bDynamicInit))
      ensures Abstract() == Begin(par, old(Abstract()), r)
      ensures SameMinimum(old(Abstract()), Abstract(), r)
    {
      if r.numRecode == 0 {
        var lo, hi := par.limits.minB, par.limits.maxB;
        if r.Intra() {
          lo, hi := par.limits.minI, par.limits.maxI;
          ctx := ctx.(lastIEncOrder := r.encOrder);
        } else if r.picType == P {
          lo, hi := par.limits.minP, par.limits.maxP;
        }
        ctx := ctx.(encOrder := r.encOrder, toRecode := false, panic := false);
        ctx := ctx.(quantMin := lo, quantMax := hi, quant := r.qp);
        if hrdSpec != null {
          hrdSpec.ResetQuant();
        }
      }
    }

    /** Neither the start of a try nor the check changes the minimum the decoder asks for. */
    static ghost predicate SameMinimum(st: State, st': State, r: Report)
      requires st.Valid() && st'.Valid()
    {
      st.spec.Some? == st'.spec.Some? && (st.spec.Some? ==> PaddedMinimum(st, r) == PaddedMinimum(st', r))
    }

    ghost predicate SameParts(
      hrdSpec: HrdCodecSpec?, avg: SlidingWindow.AvgBitrate?, par: Par, frames: map<nat, FrameStruct>,
      gopRefDist: nat, bInit: bool, bDynamicInit: bool)
      reads this
    {
      && this.hrdSpec == hrdSpec && this.avg == avg && this.par == par && this.frames == frames
      && this.gopRefDist == gopRefDist && this.bInit == bInit && this.bDynamicInit == bDynamicInit
    }

    method CheckHrd(r: Report) returns (brcStatus: BrcStatus)
      requires Valid()
      modifies Repr
      ensures Valid() && Repr == old(Repr)
      ensures SameParts(old(hrdSpec), old(avg), old(par), old(frames), old(gopRefDist), old(bInit), old(bDynamicInit))
      ensures brcStatus == HrdStatus(old(Abstract()), r) && (hrdSpec == null ==> brcStatus == OK)
      ensures Abstract() == AfterCheck(old(Abstract()), r)
      ensures SameMinimum(old(Abstract()), Abstract(), r)
    {
      brcStatus := OK;
      if hrdSpec != null {
        brcStatus := hrdSpec.CheckHrdAndUpdateQP(r.bits, r.encOrder, r.Idr(), r.qp);
      }
    }

    method GetPaddedMinimum(r: Report) returns (minFrameSize: int)
      requires Valid()
      ensures hrdSpec != null ==> minFrameSize == PaddedMinimum(Abstract(), r)
    {
      hide Hrd.MinFrameSize;
      minFrameSize := 0;
      if hrdSpec != null {
        minFrameSize := (hrdSpec.GetMinFrameSizeInBits(r.encOrder, r.Idr()) + 7) / 8;
      }
    }

    method GetFrameSizeLimit(r: Report, hints: Hints) returns (limit: int)
      requires Valid()
      ensures limit == FrameSizeLimit(par, Abstract(), r, hints)
    {
      limit := 0xfff_ffff;
      if avg != null {
        var size := avg.GetMaxFrameSize(ctx.panic, hints.sceneStart || r.Intra(), r.numRecode);
        limit := MinInt(limit, size);
      }
      if par.maxFrameSizeInBits > 0 {
        limit := MinInt(limit, par.maxFrameSizeInBits);
      }
    }

    method Decide(r: Report, brcStatus: BrcStatus, hints: Hints) returns (request: Option<Request>)
      requires Valid() && (hrdSpec == null ==> brcStatus == OK)
      ensures request == RecodeProtocol.Decide(par, Abstract(), brcStatus, r, hints)
      ensures par.rec && request == None ==> brcStatus == OK
    {
      hide FrameSizeLimit, EarlyRequest, ForcedRequest;
      var limit := GetFrameSizeLimit(r, hints);
      request := None;
      if par.rec {
        request := TryEarlyRecode(r, hints);
      }
      if request == None {
        request := TryForcedRecode(r, brcStatus, limit, hints);
      }
    }

    method TryEarlyRecode(r: Report, hints: Hints) returns (request: Option<Request>)
      requires Valid()
      ensures request == EarlyRequest(par, Abstract(), r, hints)
    {
      hide GetNewQP;
      if r.numRecode >= 2 {
        return None;
      }
      var quant, quantMin, quantMax := r.qp, ctx.quantMin, ctx.quantMax;
      if hrdSpec != null {
        quantMax := MinInt(hrdSpec.GetMaxQuant(), quantMax);
        quantMin := MaxInt(hrdSpec.GetMinQuant(), quantMin);
      }
      if r.bits as real > hints.bigLimit && quant < quantMax {
        var quantNew := GetNewQP(hints.power, r.bits as real, hints.bigLimit.Floor as real, quantMin, quantMax, quant,
                                 par.quantOffset, 1.0, false, true);
        if quantNew > quant {
          return Some(Request(BIG_FRAME, quant, quantNew, quantMin, quantMax));
        }
      }
      if r.Intra() && r.cmplx > 0
         && r.encOrder == ctx.lastIEncOrder && ctx.lastIQpSet == ctx.lastIQpMin
         && r.numRecode == 0 && r.bits as real < hints.smallLimit / 2.0 && quant > quantMin
      {
        var quantNew := GetNewQP(hints.power, r.bits as real, hints.smallLimit.Floor as real, quantMin, quantMax, quant,
                                 par.quantOffset, 0.78, false, true);
        if quantNew < quant {
          return Some(Request(SMALL_FRAME, quant, quantNew, quantMin, quantMax));
        }
      }
      if r.bits as real > hints.bigLimit && quant == quantMax
         && !r.Intra() && par.panic && !ctx.panic && hints.beforeIntra
      {
        return Some(Request(PANIC_BIG_FRAME, quant, quant, quantMin, quantMax));
      }
      if hrdSpec != null && r.numRecode == 0 && quant < quantMax {
        if hints.fAbShort > hints.fAbMax {
          var quantNew := GetNewQP(hints.power, hints.fAbShort, hints.fAbMax, quantMin, quantMax, quant,
                                   par.quantOffset, 0.5, false, true);
          if quantNew > quant {
            return Some(Request(BIG_FRAME, quant, quantNew, quantMin, quantMax));
          }
        }
      }
      return None;
    }

    method TryForcedRecode(r: Report, status: BrcStatus, limit: int, hints: Hints) returns (request: Option<Request>)
      requires Valid() && (hrdSpec == null ==> status == OK)
      ensures request == ForcedRequest(par, Abstract(), status, limit, r, hints)
      ensures par.rec && request == None ==> status == OK
    {
      hide GetNewQP, Hrd.MaxFrameSize, Hrd.MinFrameSize;
      request := None;
      if (status != OK || r.bits > limit) && par.rec {
        var brcStatus, quant: int := status, r.qp;
        var quantNew := quant;
        if r.bits > limit {
          brcStatus := BIG_FRAME;
          quantNew := GetNewQP(hints.power, r.bits as real, limit as real, ctx.quantMin, ctx.quantMax, quant,
                               par.quantOffset, 1.0, true, true);
        } else {
          var targetSize := GetFrameTargetSize(brcStatus, hrdSpec.GetMinFrameSizeInBits(r.encOrder, r.Idr()),
                                               hrdSpec.GetMaxFrameSizeInBits(r.encOrder, r.Idr()));
          quantNew := GetNewQP(hints.power, r.bits as real, targetSize as real, ctx.quantMin, ctx.quantMax, quant,
                               par.quantOffset, 1.0, true, true);
        }
        if quantNew != quant && brcStatus == SMALL_FRAME {
          quantNew := MaxInt(quantNew, quant - 2);
          brcStatus := PANIC_SMALL_FRAME;
        }
        request := Some(Request(brcStatus, quant, quantNew, ctx.quantMin, ctx.quantMax));
      }
    }

    method SetRecodeParams(q: Request) returns (brcStatus: BrcStatus)
      requires Valid()
      modifies this`ctx
      ensures Valid() && ctx == q.Apply(old(ctx)) && Abstract() == old(Abstract()).(ctx := ctx)
      ensures brcStatus == q.ReportedStatus()
    {
      brcStatus := q.status;
      ctx := ctx.(toRecode := true);
      if q.status == BIG_FRAME || q.status == PANIC_BIG_FRAME {
        if q.qpNew < q.qp {
          return;
        }
        ctx := ctx.(quant := q.qpNew, quantMax := q.maxQP);
        if q.status == BIG_FRAME && q.qpNew > q.qp {
          ctx := ctx.(quantMin := MaxInt(q.qp + 1, q.minQP));
          brcStatus := BIG_FRAME;
        } else {
          ctx := ctx.(quantMin := q.minQP, panic := true);
          brcStatus := PANIC_BIG_FRAME;
        }
      } else if q.status == SMALL_FRAME || q.status == PANIC_SMALL_FRAME {
        if q.qpNew > q.qp {
          return;
        }
        ctx := ctx.(quant := q.qpNew, quantMin := q.minQP);
        if q.status == SMALL_FRAME && q.qpNew < q.qp {
          ctx := ctx.(quantMax := MinInt(q.qp - 1, q.maxQP));
          brcStatus := SMALL_FRAME;
        } else {
          ctx := ctx.(quantMax := q.maxQP, panic := true);
          brcStatus := PANIC_SMALL_FRAME;
        }
      }
    }

    method CommitFrame(r: Report, hints: Hints)
      requires Valid()
      modifies Repr
      ensures Valid() && Repr == old(Repr)
      ensures SameParts(old(hrdSpec), old(avg), old(par), old(frames), old(gopRefDist), old(bInit), old(bDynamicInit))
      ensures Abstract() == Commit(old(Abstract()), r, hints)
    {
      hide SlidingWindow.Window.Record, SlidingWindow.Window.Valid, SlidingWindow.AvgBitrate.Holds;
      hide Spec.Update, Par.Valid, State.Valid, HrdCodecSpec.Valid, HrdCodecSpec.Abstract;
      hide SlidingWindow.AvgBitrate.Valid;
      if avg != null {
        RecordInWindow(r, hints);
      }
      if hints.nextQuant.Some? {
        ctx := ctx.(quant := hints.nextQuant.value);
      }
      ctx := ctx.(toRecode := false);
      if hrdSpec != null {
        RecordInHrd(r);
      }
    }

    method RecordInWindow(r: Report, hints: Hints)
      requires Valid() && avg != null
      modifies avg, avg.slidingWindow
      ensures Valid() && avg.slidingWindow == old(avg.slidingWindow)
      ensures Abstract() == old(Abstract()).(avg := Some(
        old(avg.Abstract()).Record(r.bits, ctx.encOrder, ctx.panic, hints.sceneStart || r.Intra(), r.numRecode)))
    {
      hide SlidingWindow.Window.Record, SlidingWindow.Window.Valid;
      avg.UpdateSlidingWindow(r.bits, ctx.encOrder, ctx.panic, hints.sceneStart || r.Intra(), r.numRecode);
    }

    method RecordInHrd(r: Report)
      requires Valid() && hrdSpec != null
      modifies hrdSpec.Repr
      ensures Valid()
      ensures Abstract() == old(Abstract()).(spec := Some(old(hrdSpec.Abstract()).Update(r.bits, r.encOrder, r.Idr())))
    {
      hide Spec.Update, SlidingWindow.Window.Valid;
      hrdSpec.Update(r.bits, r.encOrder, r.Idr());
    }
  }
}
