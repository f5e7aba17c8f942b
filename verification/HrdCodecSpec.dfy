/** The object the controller drives: a reference decoder of either codec, together with the QPs at which
    the current frame was last found too big or too small. */
module HrdCodecSpec {
  import opened HrdInput
  import Hrd
  import H264Hrd
  import HevcHrd

  datatype BrcStatus = OK | BIG_FRAME | SMALL_FRAME | PANIC_BIG_FRAME | PANIC_SMALL_FRAME

  const NO_OVERFLOW_QUANT := 999
  const NO_UNDERFLOW_QUANT := 0

  datatype Spec = Spec(hrd: Hrd.Hrd, overflowQuant: int, underflowQuant: int) {
    function MaxQuant(): int { overflowQuant - 1 }

    function MinQuant(): int { underflowQuant + 1 }

    function ResetQuant(): Spec { Spec(hrd, NO_OVERFLOW_QUANT, NO_UNDERFLOW_QUANT) }

    function CheckStatus(bits: nat, eo: nat, idr: bool): BrcStatus
      requires hrd.h.Valid()
    {
      if bits > Hrd.MaxFrameSize(hrd, eo, idr) then BIG_FRAME
      else if bits < Hrd.MinFrameSize(hrd, eo, idr) then SMALL_FRAME
      else OK
    }

    /** A failed check leaves the QP behind as a bound for the next try. */
    function Checked(bits: nat, eo: nat, idr: bool, qp: int): Spec
      requires hrd.h.Valid()
    {
      match CheckStatus(bits, eo, idr)
      case BIG_FRAME => this.(underflowQuant := qp)
      case SMALL_FRAME => this.(overflowQuant := qp)
      case _ => this
    }

    function Update(bits: nat, eo: nat, idr: bool): Spec
      requires hrd.h.Valid()
    {
      this.(hrd := Hrd.Step(hrd, eo, Frame(bits, idr)))
    }
  }

  /** A frame passes the check exactly when it is within both bounds of the reference decoder. */
  lemma CheckMeaning(s: Spec, bits: nat, eo: nat, idr: bool)
    requires s.hrd.h.Valid()
    ensures s.CheckStatus(bits, eo, idr) == OK
            <==> Hrd.WithinMax(s.hrd, eo, Frame(bits, idr)) && Hrd.WithinMin(s.hrd, eo, Frame(bits, idr))
    ensures s.CheckStatus(bits, eo, idr) == BIG_FRAME <==> !Hrd.WithinMax(s.hrd, eo, Frame(bits, idr))
    ensures s.CheckStatus(bits, eo, idr) in {OK, BIG_FRAME, SMALL_FRAME}
  {
  }

  /** A frame that is too big excludes its QP and every lower one, one that is too small its QP and every higher one,
      and one that passes none; a new frame starts with every QP from 1 to 998. */
  lemma CheckedQuants(s: Spec, bits: nat, eo: nat, idr: bool, qp: int, x: int)
    requires s.hrd.h.Valid()
    ensures var s', status := s.Checked(bits, eo, idr, qp), s.CheckStatus(bits, eo, idr);
            && s'.hrd == s.hrd
            && (s'.MinQuant() <= x <==> if status == BIG_FRAME then qp < x else s.MinQuant() <= x)
            && (x <= s'.MaxQuant() <==> if status == SMALL_FRAME then x < qp else x <= s.MaxQuant())
    ensures var s' := s.ResetQuant();
            s'.hrd == s.hrd && (s'.MinQuant() <= x <= s'.MaxQuant() <==> 1 <= x <= 998)
  {
    hide Hrd.MaxFrameSize, Hrd.MinFrameSize;
  }

  class HrdCodecSpec {
    var overflowQuant: int
    var underflowQuant: int
    const h264: H264Hrd.H264Hrd?
    const hevc: HevcHrd.HevcHrd?

    ghost const Repr: set<object>

    ghost predicate Valid()
      reads this, Repr
    {
      && this in Repr
      && (h264 != null ==> hevc == null && h264 in Repr && h264.Valid())
      && (h264 == null ==> hevc != null && hevc in Repr && hevc.Valid())
    }

    ghost function Abstract(): (s: Spec)
      requires Valid()
      reads this, Repr
      ensures s.hrd.h.Valid()
    {
      Spec(if h264 != null then Hrd.Avc(h264.hrdInput, h264.Abstract()) else Hrd.Hevc(hevc.hrdInput, hevc.Abstract()),
           overflowQuant, underflowQuant)
    }

    constructor (codec: Hrd.Codec, p: Params)
      requires p.Valid()
      ensures Valid() && fresh(Repr)
      ensures Abstract() == Spec(Hrd.Init(codec, p), NO_OVERFLOW_QUANT, NO_UNDERFLOW_QUANT)
    {
      overflowQuant := NO_OVERFLOW_QUANT;
      underflowQuant := NO_UNDERFLOW_QUANT;
      if codec == Hrd.AVC {
        var a := new H264Hrd.H264Hrd(p);
        h264, hevc := a, null;
        Repr := {this, a};
      } else {
        var e := new HevcHrd.HevcHrd(p);
        h264, hevc := null, e;
        Repr := {this, e};
      }
    }

    function GetMaxQuant(): int
      reads this
    {
      overflowQuant - 1
    }

    function GetMinQuant(): int
      reads this
    {
      underflowQuant + 1
    }

    function GetMaxFrameSizeInBits(eo: nat, idr: bool): (size: int)
      requires Valid()
      reads this, Repr
      ensures size == Hrd.MaxFrameSize(Abstract().hrd, eo, idr)
    {
      if h264 != null then h264.GetMaxFrameSizeInBits(eo, idr) else hevc.GetMaxFrameSizeInBits(eo, idr)
    }

    function GetMinFrameSizeInBits(eo: nat, idr: bool): (size: int)
      requires Valid()
      reads this, Repr
      ensures size == Hrd.MinFrameSize(Abstract().hrd, eo, idr)
    {
      if h264 != null then h264.GetMinFrameSizeInBits(eo, idr) else hevc.GetMinFrameSizeInBits(eo, idr)
    }

    method ResetQuant()
      requires Valid()
      modifies this
      ensures Valid() && Abstract() == old(Abstract()).ResetQuant()
    {
      overflowQuant := NO_OVERFLOW_QUANT;
      underflowQuant := NO_UNDERFLOW_QUANT;
    }

    method CheckHrdAndUpdateQP(frameSizeInBits: nat, eo: nat, idr: bool, currQP: int) returns (status: BrcStatus)
      requires Valid()
      modifies this
      ensures Valid()
      ensures status == old(Abstract()).CheckStatus(frameSizeInBits, eo, idr)
      ensures Abstract() == old(Abstract()).Checked(frameSizeInBits, eo, idr, currQP)
    {
      hide Hrd.MaxFrameSize, Hrd.MinFrameSize;
      if frameSizeInBits > GetMaxFrameSizeInBits(eo, idr) {
        underflowQuant := currQP;
        return BIG_FRAME;
      } else if frameSizeInBits < GetMinFrameSizeInBits(eo, idr) {
        overflowQuant := currQP;
        return SMALL_FRAME;
      }
      return OK;
    }

    method Update(sizeInBits: nat, eo: nat, sei: bool)
      requires Valid()
      modifies Repr
      ensures Valid() && Abstract() == old(Abstract()).Update(sizeInBits, eo, sei)
    {
      hide H264Hrd.Step, HevcHrd.Step;
      if h264 != null {
        h264.Update(sizeInBits, eo, sei);
      } else {
        hevc.Update(sizeInBits, eo, sei);
      }
    }
  }
}
