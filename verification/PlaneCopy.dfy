/** Copies of rectangles between pitched planes, row by row, with the row copies of `RowCopy`. */
module PlaneCopy {
  import opened Alignment
  import opened RowCopy
  import opened WordShift

  /** A rectangle in two planes: where its next row starts in each, the distance to the row after, the address
      of the source row and its pitch, and its size. Offsets, steps and width count elements, addresses bytes. */
  datatype Rect = Rect(dOff: nat, dStep: nat, sOff: nat, sStep: nat, addr: nat, pitch: nat, width: nat, rows: nat) {
    function Next(): Rect
      requires rows > 0
    {
      Rect(dOff + dStep, dStep, sOff + sStep, sStep, addr + pitch, pitch, width, rows - 1)
    }

    /** Elements the row copy writes for the next row. */
    function RowLength(fast: bool): nat { if fast then CopiedBytes(addr, width) else width }

    /** Every row lies inside both planes. */
    predicate Fits(fast: bool, srcLength: nat, dstLength: nat)
      decreases rows
    {
      rows == 0
      || (&& sOff + RowLength(fast) <= srcLength
          && dOff + RowLength(fast) <= dstLength
          && Next().Fits(fast, srcLength, dstLength))
    }

    /** The rectangle from row `h` on. */
    function From(h: nat): Rect
      requires h <= rows
      decreases h
    {
      if h == 0 then this else Next().From(h - 1)
    }

    /** No row of the destination reaches into the next. */
    predicate RowsApart(fast: bool)
      decreases rows
    {
      rows == 0 || (RowLength(fast) <= dStep && Next().RowsApart(fast))
    }
  }

  lemma {:induction false} FromMeaning(r: Rect, h: nat)
    requires h <= r.rows
    ensures var q := r.From(h);
            && q.dOff == r.dOff + h * r.dStep && q.sOff == r.sOff + h * r.sStep && q.addr == r.addr + h * r.pitch
            && q.dStep == r.dStep && q.sStep == r.sStep && q.pitch == r.pitch
            && q.width == r.width && q.rows == r.rows - h
    decreases h
  {
    if h > 0 {
      FromMeaning(r.Next(), h - 1);
      OneMoreStep(h, r.dStep);
      OneMoreStep(h, r.sStep);
      OneMoreStep(h, r.pitch);
    }
  }

  lemma OneMoreStep(h: nat, step: nat)
    requires h > 0
    ensures h * step == step + (h - 1) * step
  {
  }

  /** The destination after the rows of `r` have been copied from `s`, one after the other. */
  function CopyRect<T>(fast: bool, d: seq<T>, s: seq<T>, r: Rect, f: T -> T): (d': seq<T>)
    requires r.Fits(fast, |s|, |d|)
    ensures |d'| == |d|
    decreases r.rows
  {
    if r.rows == 0 then d
    else CopyRect(fast, Blit(d, r.dOff, Map(f, s[r.sOff..r.sOff + r.RowLength(fast)])), s, r.Next(), f)
  }

  // ----- what a rectangle copy does, pixel by pixel -----

  lemma {:induction false} BlitAt<T>(d: seq<T>, at: nat, data: seq<T>, p: nat)
    requires at + |data| <= |d| && p < |d|
    ensures Blit(d, at, data)[p] == if at <= p < at + |data| then data[p - at] else d[p]
  {
  }

  /** Nothing before the rectangle is written. */
  lemma {:induction false} BeforeRect<T>(fast: bool, d: seq<T>, s: seq<T>, r: Rect, f: T -> T, p: nat)
    requires r.Fits(fast, |s|, |d|) && p < |d| && p < r.dOff
    ensures CopyRect(fast, d, s, r, f)[p] == d[p]
    decreases r.rows
  {
    hide Blit;
    if r.rows > 0 {
      var row := Map(f, s[r.sOff..r.sOff + r.RowLength(fast)]);
      BlitAt(d, r.dOff, row, p);
      BeforeRect(fast, Blit(d, r.dOff, row), s, r.Next(), f, p);
    }
  }

  /** Sample `x` of the next row arrives at its place, transformed, if that row does not reach further ones. */
  lemma {:induction false} FirstRowPixel<T>(fast: bool, d: seq<T>, s: seq<T>, r: Rect, f: T -> T, x: nat)
    requires r.rows > 0 && r.Fits(fast, |s|, |d|) && r.RowLength(fast) <= r.dStep
    requires x < r.RowLength(fast)
    ensures CopyRect(fast, d, s, r, f)[r.dOff + x] == f(s[r.sOff + x])
  {
    hide Blit, Map, CopiedBytes;
    var n, p := r.RowLength(fast), r.dOff + x;
    assert r.Next().dOff == r.dOff + r.dStep;
    hide Rect.Next, Rect.RowLength;
    var data := s[r.sOff..r.sOff + n];
    var d1 := Blit(d, r.dOff, Map(f, data));
    BlitAt(d, r.dOff, Map(f, data), p);
    BeforeRect(fast, d1, s, r.Next(), f, p);
  }

  /** The same for sample `x` of any row `h`, if rows do not overlap. */
  lemma {:induction false} RectPixel<T>(fast: bool, d: seq<T>, s: seq<T>, r: Rect, f: T -> T, h: nat, x: nat)
    requires r.Fits(fast, |s|, |d|) && r.RowsApart(fast)
    requires h < r.rows && x < r.From(h).RowLength(fast)
    ensures var q := r.From(h);
            && q.dOff + x < |d| && q.sOff + x < |s|
            && CopyRect(fast, d, s, r, f)[q.dOff + x] == f(s[q.sOff + x])
    decreases h
  {
    hide Blit, Map, CopiedBytes;
    if h == 0 {
      FirstRowPixel(fast, d, s, r, f, x);
    } else {
      var d1 := Blit(d, r.dOff, Map(f, s[r.sOff..r.sOff + r.RowLength(fast)]));
      assert CopyRect(fast, d, s, r, f) == CopyRect(fast, d1, s, r.Next(), f);
      hide CopyRect;
      RectPixel(fast, d1, s, r.Next(), f, h - 1, x);
    }
  }

  /** A position in no row keeps its value. */
  lemma {:induction false} OutsideRect<T>(fast: bool, d: seq<T>, s: seq<T>, r: Rect, f: T -> T, p: nat)
    requires r.Fits(fast, |s|, |d|) && p < |d|
    requires forall h :: 0 <= h < r.rows ==> !(r.From(h).dOff <= p < r.From(h).dOff + r.From(h).RowLength(fast))
    ensures CopyRect(fast, d, s, r, f)[p] == d[p]
    decreases r.rows
  {
    hide Blit;
    if r.rows > 0 {
      var row := Map(f, s[r.sOff..r.sOff + r.RowLength(fast)]);
      assert r.From(0) == r;
      BlitAt(d, r.dOff, row, p);
      forall h | 0 <= h < r.rows - 1
        ensures !(r.Next().From(h).dOff <= p < r.Next().From(h).dOff + r.Next().From(h).RowLength(fast))
      {
        assert r.From(h + 1) == r.Next().From(h);
      }
      OutsideRect(fast, Blit(d, r.dOff, row), s, r.Next(), f, p);
    }
  }

  /** Whether the next row of `r` covers position `p` of the destination. */
  predicate Covers(fast: bool, r: Rect, p: nat) {
    r.dOff <= p < r.dOff + r.RowLength(fast)
  }

  /** Sample `x` of the next row stays where no later row is written. */
  lemma {:induction false} FirstRowStays<T>(fast: bool, d: seq<T>, s: seq<T>, r: Rect, f: T -> T, x: nat)
    requires r.Fits(fast, |s|, |d|) && 0 < r.rows && x < r.RowLength(fast)
    requires forall k :: 0 <= k < r.rows - 1 ==> !Covers(fast, r.Next().From(k), r.dOff + x)
    ensures CopyRect(fast, d, s, r, f)[r.dOff + x] == f(s[r.sOff + x])
  {
    hide Blit, Map, CopiedBytes;
    var row := Map(f, s[r.sOff..r.sOff + r.RowLength(fast)]);
    BlitAt(d, r.dOff, row, r.dOff + x);
    OutsideRect(fast, Blit(d, r.dOff, row), s, r.Next(), f, r.dOff + x);
  }

  /** Where rows overlap, the last one wins: sample `x` of row `h` stays where no later row is written. */
  lemma {:induction false} LastRowWins<T>(fast: bool, d: seq<T>, s: seq<T>, r: Rect, f: T -> T, h: nat, x: nat)
    requires r.Fits(fast, |s|, |d|) && h < r.rows && x < r.From(h).RowLength(fast)
    requires forall k :: h < k < r.rows ==> !Covers(fast, r.From(k), r.From(h).dOff + x)
    ensures var q := r.From(h);
            && q.dOff + x < |d| && q.sOff + x < |s|
            && CopyRect(fast, d, s, r, f)[q.dOff + x] == f(s[q.sOff + x])
    decreases h
  {
    hide Blit, Map, CopiedBytes, Covers;
    var d1 := Blit(d, r.dOff, Map(f, s[r.sOff..r.sOff + r.RowLength(fast)]));
    assert CopyRect(fast, d, s, r, f) == CopyRect(fast, d1, s, r.Next(), f);
    hide CopyRect;
    var q := r.From(h);
    forall k | 0 <= k < r.rows - 1 && h <= k ensures !Covers(fast, r.Next().From(k), q.dOff + x) {
      assert r.From(k + 1) == r.Next().From(k);
    }
    if h == 0 {
      FirstRowStays(fast, d, s, r, f, x);
    } else {
      LastRowWins(fast, d1, s, r.Next(), f, h - 1, x);
    }
  }

  /** With every row at least as long as its unaligned head, the fast rectangle copy is the simple one. */
  lemma {:induction false} FastRectIsSimple<T>(d: seq<T>, s: seq<T>, r: Rect, f: T -> T)
    requires r.Fits(false, |s|, |d|)
    requires forall h :: 0 <= h < r.rows ==> Align16(r.From(h).addr) <= r.width
    ensures r.Fits(true, |s|, |d|) && CopyRect(true, d, s, r, f) == CopyRect(false, d, s, r, f)
    decreases r.rows
  {
    hide Blit, Align16;
    if r.rows > 0 {
      assert r.From(0) == r;
      CopiesExactlyTheRow(r.addr, r.width);
      forall h | 0 <= h < r.rows - 1 ensures Align16(r.Next().From(h).addr) <= r.width {
        assert r.From(h + 1) == r.Next().From(h);
      }
      FastRectIsSimple(Blit(d, r.dOff, Map(f, s[r.sOff..r.sOff + r.width])), s, r.Next(), f);
    }
  }

  // ----- the two entry points -----

  const COPY_VIDEO_TO_SYS: bv32 := 2

  predicate VideoToSys(flag: bv32) { flag & COPY_VIDEO_TO_SYS != 0 }

  /** Only the flag's second bit decides: copies between system planes and to video memory do not have it. */
  lemma VideoToSysMeaning(flag: bv32)
    ensures VideoToSys(flag) <==> flag | 2 == flag
    ensures !VideoToSys(0) && !VideoToSys(1) && VideoToSys(2)
  {
    FlagBits(flag);
  }

  lemma FlagBits(flag: bv32)
    ensures flag & 2 != 0 <==> flag | 2 == flag
    ensures (0 as bv32) & 2 == 0 && (1 as bv32) & 2 == 0 && (2 as bv32) & 2 != 0
  {
  }

  predicate RectIsValid(pSrc: array?<bv8>, pDst: array?<bv8>, width: int, height: int, srcStep: int, dstStep: int) {
    pSrc != null && pDst != null && width >= 0 && height >= 0 && srcStep >= 0 && dstStep >= 0
  }

  /** Bytes in a row of `width` elements of `size` bytes. */
  function RowBytes(width: nat, size: nat): nat { width * size }

  lemma RowBytesGrow(width: nat, size: nat)
    ensures RowBytes(0, size) == 0 && RowBytes(width + 1, size) == RowBytes(width, size) + size
  {
  }

  /** `mfxCopyRect` for elements of `size` bytes, on the bytes they consist of. `addr` is the address of the first
      source element. */
  method MfxCopyRect(
    pSrc: array?<bv8>, srcOff: nat, addr: nat, srcStep: int, pDst: array?<bv8>, dstOff: nat, dstStep: int,
    width: int, height: int, size: nat, flag: bv32)
    returns (code: int)
    requires RectIsValid(pSrc, pDst, width, height, srcStep, dstStep) ==>
      && pSrc != pDst
      && Rect(dstOff, dstStep, srcOff, srcStep, addr, srcStep, RowBytes(width, size), height)
         .Fits(VideoToSys(flag), pSrc.Length, pDst.Length)
    modifies pDst
    ensures code == if pSrc != null && pDst != null && width >= 0 && height >= 0 && srcStep >= 0 && dstStep >= 0
                    then 0 else -1
    ensures code == 0 ==>
      pDst[..] == CopyRect(VideoToSys(flag), old(pDst[..]), pSrc[..],
                           Rect(dstOff, dstStep, srcOff, srcStep, addr, srcStep, RowBytes(width, size), height), Same)
    ensures code == -1 && pDst != null ==> pDst[..] == old(pDst[..])
  {
    hide VideoToSys, Blit, CopiedBytes, Same;
    if pDst == null || pSrc == null || width < 0 || height < 0 || srcStep < 0 || dstStep < 0 {
      return -1;
    }
    var fast := VideoToSys(flag);
    ghost var before := pDst[..];
    var rect := Rect(dstOff, dstStep, srcOff, srcStep, addr, srcStep, RowBytes(width, size), height);
    var rest := rect;
    while rest.rows > 0
      invariant rest.Fits(fast, pSrc.Length, pDst.Length)
      invariant CopyRect(fast, pDst[..], pSrc[..], rest, Same) == CopyRect(fast, before, pSrc[..], rect, Same)
      decreases rest.rows
    {
      CopyRow(fast, pSrc, pDst, rest);
      rest := rest.Next();
    }
    code := 0;
  }

  /** One row, with the row copy the flag selects. */
  method CopyRow(fast: bool, src: array<bv8>, dst: array<bv8>, r: Rect)
    requires src != dst && r.rows > 0 && r.Fits(fast, src.Length, dst.Length)
    modifies dst
    ensures dst[..] == Blit(old(dst[..]), r.dOff, Map(Same, src[..][r.sOff..r.sOff + r.RowLength(fast)]))
  {
    hide Blit, CopiedBytes;
    var n := r.RowLength(fast);
    assert src[..][r.sOff..r.sOff + n] == src[r.sOff..r.sOff + n];
    MapSame(src[r.sOff..r.sOff + n]);
    if fast {
      CopyVideoToSysSse4(src, r.sOff, r.addr, dst, r.dOff, r.width);
    } else {
      CopyVideoToSysC(src, r.sOff, dst, r.dOff, r.width);
    }
  }

  datatype Status = Ok | NullPtr

  /** `FastCopy::CopyAndShift`: video to system memory shifts right, the other way left, with the row shifts the
      processor has (`sse4`). Steps count samples, that is, half the byte pitch; `addr` is the address of the first
      source sample in bytes. */
  method CopyAndShift(
    sse4: bool, pDst: array?<bv16>, dstOff: nat, dstStep: nat, pSrc: array?<bv16>, srcOff: nat, addr: nat, srcStep: nat,
    width: nat, height: nat, lshift: Shift, rshift: Shift, flag: bv32)
    returns (status: Status)
    requires pDst != null && pSrc != null ==>
      && pSrc != pDst
      && ShiftFits(sse4, VideoToSys(flag), Rect(dstOff, dstStep, srcOff, srcStep, addr, 2 * srcStep, width, height),
                   pSrc.Length, pDst.Length)
    modifies pDst
    ensures status == if pDst == null || pSrc == null then NullPtr else Ok
    ensures status == Ok ==>
      pDst[..] == ShiftRect(sse4, VideoToSys(flag), old(pDst[..]), pSrc[..],
                            Rect(dstOff, dstStep, srcOff, srcStep, addr, 2 * srcStep, width, height),
                            if VideoToSys(flag) then rshift else lshift)
    ensures status == NullPtr && pDst != null ==> pDst[..] == old(pDst[..])
  {
    hide VideoToSys, Blit, RowShifted, RowSamples;
    if pDst == null || pSrc == null {
      return NullPtr;
    }
    var right := VideoToSys(flag);
    var shift := if right then rshift else lshift;
    ghost var before := pDst[..];
    var rect := Rect(dstOff, dstStep, srcOff, srcStep, addr, 2 * srcStep, width, height);
    var rest := rect;
    while rest.rows > 0
      invariant ShiftFits(sse4, right, rest, pSrc.Length, pDst.Length)
      invariant ShiftRect(sse4, right, pDst[..], pSrc[..], rest, shift)
             == ShiftRect(sse4, right, before, pSrc[..], rect, shift)
      decreases rest.rows
    {
      ShiftRow(sse4, right, pSrc, pDst, rest, shift);
      rest := rest.Next();
    }
    status := Ok;
  }

  /** One row, in the direction of the copy. */
  method ShiftRow(sse4: bool, right: bool, src: array<bv16>, dst: array<bv16>, r: Rect, shift: Shift)
    requires src != dst && r.rows > 0 && ShiftFits(sse4, right, r, src.Length, dst.Length)
    modifies dst
    ensures dst[..] == Blit(old(dst[..]), r.dOff, RowShifted(sse4, right, r, src[..], shift))
  {
    hide Blit, ShiftedSamples, LeftSamples, LeftRegs, LeftIsLoadable, Map, FastLeft, ShiftRightBy, ShiftLeftBy;
    var n := RowSamples(sse4, right, r);
    assert src[..][r.sOff..r.sOff + n] == src[r.sOff..r.sOff + n];
    LeftRegsFit(r.addr, r.width);
    if right {
      if sse4 {
        CopyVideoToSysShiftSse4(src, r.sOff, r.addr, dst, r.dOff, r.width, shift);
      } else {
        CopyVideoToSysShiftC(src, r.sOff, dst, r.dOff, r.width, shift);
      }
    } else {
      if sse4 {
        CopySysToVideoShiftSse4(src, r.sOff, r.addr, dst, r.dOff, r.width, shift);
      } else {
        CopySysToVideoShiftC(src, r.sOff, dst, r.dOff, r.width, shift);
      }
    }
  }

  // ----- shifted rectangles -----

  /** Samples a row shift writes for the next row. */
  function RowSamples(sse4: bool, right: bool, r: Rect): nat {
    if !sse4 then r.width else if right then ShiftedSamples(r.addr, r.width) else LeftSamples(r.addr, r.width)
  }

  lemma LeftRegsFit(addr: nat, width: int)
    ensures 8 * LeftRegs(addr, width) <= LeftSamples(addr, width)
  {
  }

  /** What it writes there. */
  function RowShifted(sse4: bool, right: bool, r: Rect, s: seq<bv16>, shift: Shift): (row: seq<bv16>)
    requires r.sOff + RowSamples(sse4, right, r) <= |s|
    ensures |row| == RowSamples(sse4, right, r)
  {
    var data := s[r.sOff..r.sOff + RowSamples(sse4, right, r)];
    if right then Map(ShiftRightBy(shift), data)
    else if !sse4 then Map(ShiftLeftBy(shift), data)
    else
      LeftRegsFit(r.addr, r.width);
      FastLeft(data, LeftRegs(r.addr, r.width), shift)
  }

  /** Every row lies inside both planes, and the fast shifts can load it. */
  predicate ShiftFits(sse4: bool, right: bool, r: Rect, srcLength: nat, dstLength: nat)
    decreases r.rows
  {
    r.rows == 0
    || (&& r.sOff + RowSamples(sse4, right, r) <= srcLength
        && r.dOff + RowSamples(sse4, right, r) <= dstLength
        && (sse4 ==> if right then r.addr % 2 == 0 else LeftIsLoadable(r.addr, r.width))
        && ShiftFits(sse4, right, r.Next(), srcLength, dstLength))
  }

  /** The destination after the rows of `r` have been shifted into it, one after the other. */
  function ShiftRect(sse4: bool, right: bool, d: seq<bv16>, s: seq<bv16>, r: Rect, shift: Shift): (d': seq<bv16>)
    requires ShiftFits(sse4, right, r, |s|, |d|)
    ensures |d'| == |d|
    decreases r.rows
  {
    if r.rows == 0 then d
    else ShiftRect(sse4, right, Blit(d, r.dOff, RowShifted(sse4, right, r, s, shift)), s, r.Next(), shift)
  }

  /** The simple shifts copy a rectangle sample by sample. */
  lemma {:induction false} SimpleShiftRect(right: bool, d: seq<bv16>, s: seq<bv16>, r: Rect, shift: Shift)
    requires r.Fits(false, |s|, |d|)
    ensures ShiftFits(false, right, r, |s|, |d|)
    ensures ShiftRect(false, right, d, s, r, shift)
         == CopyRect(false, d, s, r, if right then ShiftRightBy(shift) else ShiftLeftBy(shift))
    decreases r.rows
  {
    hide Blit, Map, ShiftRightBy, ShiftLeftBy;
    if r.rows > 0 {
      SimpleShiftRect(right, Blit(d, r.dOff, RowShifted(false, right, r, s, shift)), s, r.Next(), shift);
    }
  }

  /** Where the fast shift of the next row is the simple one: whole registers after the head, or, to the left, an
      aligned row of a multiple of eight samples whose even-index samples carry nothing out. */
  ghost predicate RowRefines(right: bool, r: Rect, s: seq<bv16>, shift: Shift) {
    && r.addr % 2 == 0
    && r.sOff + r.width <= |s|
    && if right
       then 2 * r.width >= Align16(r.addr) && (2 * r.width - Align16(r.addr)) % 16 == 0
       else r.addr % 16 == 0 && r.width % 8 == 0 && NothingCarried(s[r.sOff..r.sOff + r.width], shift)
  }

  lemma FastRowIsSimple(right: bool, r: Rect, s: seq<bv16>, shift: Shift)
    requires RowRefines(right, r, s, shift)
    ensures RowSamples(true, right, r) == r.width
    ensures RowShifted(true, right, r, s, shift) == RowShifted(false, right, r, s, shift)
    ensures if right then r.addr % 2 == 0 else LeftIsLoadable(r.addr, r.width)
  {
    hide ShiftedSamples, LeftSamples, Align16, NothingCarried, Map, FastLeft, ShiftRightBy, ShiftLeftBy;
    if right {
      ShiftsExactlyTheRow(r.addr, r.width);
    } else {
      LeftShiftsExactlyTheRow(r.addr, r.width);
      AlignIsZero(r.addr);
      var row := s[r.sOff..r.sOff + r.width];
      assert 8 * LeftRegs(r.addr, r.width) == r.width && row[..r.width] == row;
      FastLeftIsSimpleLeft(row, LeftRegs(r.addr, r.width), shift);
    }
  }

  /** The fast shift of a rectangle is the simple one if each of its rows meets the condition of its row shift. */
  lemma {:induction false} FastShiftRectIsSimple(right: bool, d: seq<bv16>, s: seq<bv16>, r: Rect, shift: Shift)
    requires r.Fits(false, |s|, |d|)
    requires forall h :: 0 <= h < r.rows ==> RowRefines(right, r.From(h), s, shift)
    ensures ShiftFits(true, right, r, |s|, |d|) && ShiftFits(false, right, r, |s|, |d|)
    ensures ShiftRect(true, right, d, s, r, shift) == ShiftRect(false, right, d, s, r, shift)
    decreases r.rows
  {
    hide Blit, RowRefines, RowShifted, LeftIsLoadable;
    SimpleShiftRect(right, d, s, r, shift);
    if r.rows > 0 {
      assert r.From(0) == r;
      FastRowIsSimple(right, r, s, shift);
      forall h | 0 <= h < r.rows - 1 ensures RowRefines(right, r.Next().From(h), s, shift) {
        assert r.From(h + 1) == r.Next().From(h);
      }
      FastShiftRectIsSimple(right, Blit(d, r.dOff, RowShifted(false, right, r, s, shift)), s, r.Next(), shift);
    }
  }

  /** There and back: a plane copied to video memory with a left shift and back with the same right shift
      shows the original sample at its place, if and only if the sample is below 2^(16 - shift). */
  lemma {:induction false} PlaneRoundTrip(
    system: seq<bv16>, video: seq<bv16>, back: seq<bv16>, there: Rect, here: Rect, shift: Shift, h: nat, x: nat)
    requires there.Fits(false, |system|, |video|) && there.RowsApart(false)
    requires here.Fits(false, |video|, |back|) && here.RowsApart(false)
    requires here.sOff == there.dOff && here.sStep == there.dStep
    requires here.width == there.width && here.rows == there.rows
    requires h < there.rows && x < there.width
    ensures var video' := CopyRect(false, video, system, there, ShiftLeftBy(shift));
            var back' := CopyRect(false, back, video', here, ShiftRightBy(shift));
            var from, to := there.From(h).sOff + x, here.From(h).dOff + x;
            && from < |system| && to < |back|
            && (back'[to] == system[from] <==> CarriedOut(system[from], shift) == 0)
  {
    hide Blit, ShiftLeftBy, ShiftRightBy, CarriedOut, Shl, Shr;
    FromMeaning(there, h);
    FromMeaning(here, h);
    var video' := CopyRect(false, video, system, there, ShiftLeftBy(shift));
    RectPixel(false, video, system, there, ShiftLeftBy(shift), h, x);
    RectPixel(false, back, video', here, ShiftRightBy(shift), h, x);
    BackAndForth(system[there.From(h).sOff + x], shift);
  }

  lemma BackAndForth(x: bv16, shift: Shift)
    ensures ShiftRightBy(shift)(ShiftLeftBy(shift)(x)) == x <==> CarriedOut(x, shift) == 0
  {
    hide Shl, Shr, CarriedOut;
    ShiftRoundTrip(x, shift);
  }
}
