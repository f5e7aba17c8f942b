/** Row copies over memory: the simple per-element loops, and the SSE4 forms that move 64-byte and 16-byte
    blocks between an unaligned head and a tail. Memory is an array with an offset; the address of an
    element matters only for the alignment that the vector loads demand. */
module RowCopy {
  import opened Alignment
  import opened WordShift

  // ----- memory -----

  /** `d` with `data` written at `at`. */
  function Blit<T>(d: seq<T>, at: nat, data: seq<T>): (r: seq<T>)
    requires at + |data| <= |d|
    ensures |r| == |d|
  {
    d[..at] + data + d[at + |data|..]
  }

  lemma BlitTwice<T>(d: seq<T>, at: nat, a: seq<T>, b: seq<T>)
    requires at + |a| + |b| <= |d|
    ensures Blit(Blit(d, at, a), at + |a|, b) == Blit(d, at, a + b)
  {
  }

  lemma BlitOne<T>(d: seq<T>, at: nat, a: seq<T>, x: T)
    requires at + |a| < |d|
    ensures Blit(d, at, a)[at + |a| := x] == Blit(d, at, a + [x])
  {
  }

  function Map<T>(f: T -> T, s: seq<T>): (r: seq<T>)
    ensures |r| == |s|
    ensures forall i :: 0 <= i < |s| ==> r[i] == f(s[i])
  {
    seq(|s|, i requires 0 <= i < |s| => f(s[i]))
  }

  lemma MapConcat<T>(f: T -> T, a: seq<T>, b: seq<T>)
    ensures Map(f, a + b) == Map(f, a) + Map(f, b)
  {
  }

  /** The simple form of every copy: one element after the other. */
  method CopyElements<T>(src: array<T>, srcOff: nat, dst: array<T>, dstOff: nat, count: nat, f: T -> T)
    requires src != dst && srcOff + count <= src.Length && dstOff + count <= dst.Length
    modifies dst
    ensures dst[..] == Blit(old(dst[..]), dstOff, Map(f, src[srcOff..srcOff + count]))
  {
    ghost var before := dst[..];
    for i := 0 to count
      invariant dst[..] == Blit(before, dstOff, Map(f, src[srcOff..srcOff + i]))
    {
      ghost var row := src[srcOff..srcOff + i];
      BlitOne(before, dstOff, Map(f, row), f(src[srcOff + i]));
      dst[dstOff + i] := f(src[srcOff + i]);
      assert src[srcOff..srcOff + i + 1] == row + [src[srcOff + i]];
      MapConcat(f, row, [src[srcOff + i]]);
      assert Map(f, [src[srcOff + i]]) == [f(src[srcOff + i])];
    }
  }

  // ----- 128-bit registers: 16 bytes or 8 words -----

  /** An operation on registers keeps the number of lanes. */
  ghost predicate IsVectorOp<T(!new)>(op: seq<T> -> seq<T>) {
    forall xmm :: |op(xmm)| == |xmm|
  }

  /** An aligned load: the address of the first element must be a multiple of 16. */
  method LoadAligned<T>(src: array<T>, pos: nat, lanes: nat, addr: nat) returns (xmm: seq<T>)
    requires addr % 16 == 0 && pos + lanes <= src.Length
    ensures xmm == src[pos..pos + lanes]
  {
    xmm := src[pos..pos + lanes];
  }

  method StoreUnaligned<T>(dst: array<T>, pos: nat, xmm: seq<T>)
    requires pos + |xmm| <= dst.Length
    modifies dst
    ensures dst[..] == Blit(old(dst[..]), pos, xmm)
  {
    ghost var before := dst[..];
    assert xmm[..0] == [];
    for i := 0 to |xmm|
      invariant dst[..] == Blit(before, pos, xmm[..i])
    {
      BlitOne(before, pos, xmm[..i], xmm[i]);
      dst[pos + i] := xmm[i];
      assert xmm[..i + 1] == xmm[..i] + [xmm[i]];
    }
    assert xmm[..|xmm|] == xmm;
  }

  /** Elements in `regs` registers. */
  function Lanes(words: bool, regs: nat): nat { if words then 8 * regs else 16 * regs }

  /** `op` applied to `s` register by register. */
  function MapRegs<T>(op: seq<T> -> seq<T>, words: bool, s: seq<T>, regs: nat): seq<T>
    requires |s| == Lanes(words, regs)
  {
    if regs == 0 then []
    else MapRegs(op, words, s[..Lanes(words, regs - 1)], regs - 1) + op(s[Lanes(words, regs - 1)..])
  }

  lemma {:induction false} MapRegsLength<T(!new)>(op: seq<T> -> seq<T>, words: bool, s: seq<T>, regs: nat)
    requires |s| == Lanes(words, regs) && IsVectorOp(op)
    ensures |MapRegs(op, words, s, regs)| == |s|
  {
    if regs > 0 {
      MapRegsLength(op, words, s[..Lanes(words, regs - 1)], regs - 1);
    }
  }

  /** Register `k` of the vector part: loaded, operated on, stored after the `k` before it. */
  method CopyRegister<T(!new)>(
    src: array<T>, srcOff: nat, addr: nat, dst: array<T>, dstOff: nat, k: nat, words: bool, op: seq<T> -> seq<T>,
    ghost before: seq<T>)
    requires src != dst && |before| == dst.Length && addr % 16 == 0 && IsVectorOp(op)
    requires srcOff + Lanes(words, k + 1) <= src.Length && dstOff + Lanes(words, k + 1) <= dst.Length
    requires VectorDone(src[srcOff..], dst[..], dstOff, words, op, k, before)
    modifies dst
    ensures VectorDone(src[srcOff..], dst[..], dstOff, words, op, k + 1, before)
  {
    hide VectorDone, Blit;
    var lanes, pos := Lanes(words, 1), Lanes(words, k);
    ghost var row := src[srcOff..];
    VectorExtends(row, dst[..], dstOff, words, op, k, before);
    var xmm := LoadAligned(src, srcOff + pos, lanes, addr + 16 * k);
    assert xmm == row[pos..pos + lanes];
    StoreUnaligned(dst, dstOff + pos, op(xmm));
    assert src[srcOff..] == row;
  }

  lemma VectorExtends<T(!new)>(
    row: seq<T>, now: seq<T>, dstOff: nat, words: bool, op: seq<T> -> seq<T>, k: nat, before: seq<T>)
    requires IsVectorOp(op) && |now| == |before|
    requires Lanes(words, k + 1) <= |row| && dstOff + Lanes(words, k + 1) <= |before|
    requires VectorDone(row, now, dstOff, words, op, k, before)
    ensures var pos, end := Lanes(words, k), Lanes(words, k + 1);
            VectorDone(row, Blit(now, dstOff + pos, op(row[pos..end])), dstOff, words, op, k + 1, before)
  {
    hide Blit;
    var pos, end := Lanes(words, k), Lanes(words, k + 1);
    MapRegsLength(op, words, row[..pos], k);
    OneMoreReg(op, words, row[..end], k + 1);
    assert row[..end][..pos] == row[..pos] && row[..end][pos..] == row[pos..end];
    hide MapRegs;
    BlitTwice(before, dstOff, MapRegs(op, words, row[..pos], k), op(row[pos..end]));
  }

  /** The first `k` registers of `row` are operated on and stored, and nothing else is changed. */
  ghost predicate VectorDone<T(!new)>(
    row: seq<T>, now: seq<T>, dstOff: nat, words: bool, op: seq<T> -> seq<T>, k: nat, before: seq<T>)
    requires IsVectorOp(op)
  {
    && Lanes(words, k) <= |row|
    && dstOff + Lanes(words, k) <= |before|
    && (MapRegsLength(op, words, row[..Lanes(words, k)], k);
        now == Blit(before, dstOff, MapRegs(op, words, row[..Lanes(words, k)], k)))
  }

  /** The vector part of a copy: blocks of four registers, then single ones. */
  method CopyRegisters<T(!new)>(
    src: array<T>, srcOff: nat, addr: nat, dst: array<T>, dstOff: nat, regs: nat, words: bool, op: seq<T> -> seq<T>)
    requires src != dst && (regs > 0 ==> addr % 16 == 0) && IsVectorOp(op)
    requires srcOff + Lanes(words, regs) <= src.Length && dstOff + Lanes(words, regs) <= dst.Length
    modifies dst
    ensures VectorDone(src[srcOff..], dst[..], dstOff, words, op, regs, old(dst[..]))
  {
    hide VectorDone, Blit;
    ghost var before := dst[..];
    NothingDone(src[srcOff..], before, dstOff, words, op);
    var k := 0;
    while k < regs - regs % 4
      invariant k <= regs - regs % 4 && k % 4 == 0
      invariant VectorDone(src[srcOff..], dst[..], dstOff, words, op, k, before)
    {
      CopyBlock(src, srcOff, addr, dst, dstOff, k, words, op, before);
      k := k + 4;
    }
    while k < regs
      invariant k <= regs
      invariant VectorDone(src[srcOff..], dst[..], dstOff, words, op, k, before)
    {
      CopyRegister(src, srcOff, addr, dst, dstOff, k, words, op, before);
      k := k + 1;
    }
  }

  /** One 64-byte block. */
  method CopyBlock<T(!new)>(
    src: array<T>, srcOff: nat, addr: nat, dst: array<T>, dstOff: nat, k: nat, words: bool, op: seq<T> -> seq<T>,
    ghost before: seq<T>)
    requires src != dst && |before| == dst.Length && addr % 16 == 0 && IsVectorOp(op)
    requires srcOff + Lanes(words, k + 4) <= src.Length && dstOff + Lanes(words, k + 4) <= dst.Length
    requires VectorDone(src[srcOff..], dst[..], dstOff, words, op, k, before)
    modifies dst
    ensures VectorDone(src[srcOff..], dst[..], dstOff, words, op, k + 4, before)
  {
    hide VectorDone;
    CopyRegister(src, srcOff, addr, dst, dstOff, k, words, op, before);
    CopyRegister(src, srcOff, addr, dst, dstOff, k + 1, words, op, before);
    CopyRegister(src, srcOff, addr, dst, dstOff, k + 2, words, op, before);
    CopyRegister(src, srcOff, addr, dst, dstOff, k + 3, words, op, before);
  }

  lemma NothingDone<T(!new)>(row: seq<T>, now: seq<T>, dstOff: nat, words: bool, op: seq<T> -> seq<T>)
    requires IsVectorOp(op) && dstOff <= |now|
    ensures VectorDone(row, now, dstOff, words, op, 0, now)
  {
    assert row[..0] == [];
  }

  // ----- the three row copies, simple and fast -----

  /** A register operation that works lane by lane agrees with the simple loop. */
  lemma {:induction false} LaneWise<T(!new)>(op: seq<T> -> seq<T>, f: T -> T, words: bool, s: seq<T>, regs: nat)
    requires |s| == Lanes(words, regs)
    requires forall xmm :: op(xmm) == Map(f, xmm)
    ensures MapRegs(op, words, s, regs) == Map(f, s)
  {
    if regs > 0 {
      var n := Lanes(words, regs - 1);
      LaneWise(op, f, words, s[..n], regs - 1);
      MapConcat(f, s[..n], s[n..]);
      assert s[..n] + s[n..] == s;
    }
  }

  /** Head, vector part and tail, stored one after the other, are one store. */
  lemma BlitThrice<T>(d: seq<T>, at: nat, a: seq<T>, b: seq<T>, c: seq<T>)
    requires at + |a| + |b| + |c| <= |d|
    ensures Blit(Blit(Blit(d, at, a), at + |a|, b), at + |a| + |b|, c) == Blit(d, at, a + b + c)
  {
    BlitTwice(d, at, a, b);
    BlitTwice(d, at, a + b, c);
  }

  // ----- the plain copy -----

  method CopyVideoToSysC(src: array<bv8>, srcOff: nat, dst: array<bv8>, dstOff: nat, width: nat)
    requires src != dst && srcOff + width <= src.Length && dstOff + width <= dst.Length
    modifies dst
    ensures dst[..] == Blit(old(dst[..]), dstOff, src[srcOff..srcOff + width])
  {
    CopyElements(src, srcOff, dst, dstOff, width, Same);
    MapSame(src[srcOff..srcOff + width]);
  }

  function Same(x: bv8): bv8 { x }

  function SameRegister(xmm: seq<bv8>): seq<bv8> { xmm }

  lemma MapSame(s: seq<bv8>)
    ensures Map(Same, s) == s
  {
  }

  /** `addr` is the address of `src[srcOff]`. */
  method CopyVideoToSysSse4(src: array<bv8>, srcOff: nat, addr: nat, dst: array<bv8>, dstOff: nat, width: int)
    requires src != dst
    requires srcOff + CopiedBytes(addr, width) <= src.Length && dstOff + CopiedBytes(addr, width) <= dst.Length
    modifies dst
    ensures dst[..] == Blit(old(dst[..]), dstOff, src[srcOff..srcOff + CopiedBytes(addr, width)])
  {
    hide Blit, Align16, VectorDone, Map;
    ghost var before := dst[..];
    var align16 := Align16(addr);
    CopyElements(src, srcOff, dst, dstOff, align16, Same);
    MapSame(src[srcOff..srcOff + align16]);
    var w := width - align16;
    if w < 0 {
      return;
    }
    var n := 16 * (w / 16);
    CopyRegisters(src, srcOff + align16, addr + align16, dst, dstOff + align16, w / 16, false, SameRegister);
    PlainVector(src[srcOff + align16..], dst[..], dstOff + align16, w / 16,
                Blit(before, dstOff, src[srcOff..srcOff + align16]));
    CopyElements(src, srcOff + align16 + n, dst, dstOff + align16 + n, w % 16, Same);
    ghost var tail := src[srcOff + align16 + n..srcOff + align16 + n + w % 16];
    MapSame(tail);
    BlitThrice(before, dstOff, src[srcOff..srcOff + align16], src[srcOff + align16..][..n], tail);
    assert src[srcOff..srcOff + width] == src[srcOff..srcOff + align16] + src[srcOff + align16..][..n] + tail;
  }

  lemma PlainVector(row: seq<bv8>, now: seq<bv8>, dstOff: nat, regs: nat, before: seq<bv8>)
    requires IsVectorOp(SameRegister) && VectorDone(row, now, dstOff, false, SameRegister, regs, before)
    ensures 16 * regs <= |row| && dstOff + 16 * regs <= |before|
    ensures now == Blit(before, dstOff, row[..16 * regs])
  {
    hide Blit;
    forall xmm ensures SameRegister(xmm) == Map(Same, xmm) {
      MapSame(xmm);
    }
    LaneWise(SameRegister, Same, false, row[..16 * regs], regs);
    MapSame(row[..16 * regs]);
  }

  // ----- the right shift -----

  function ShiftRightBy(shift: Shift): bv16 -> bv16 { x => Shr(x, shift) }

  /** `_mm_srli_epi16` */
  function Srli16(shift: Shift): seq<bv16> -> seq<bv16> { xmm => Map(ShiftRightBy(shift), xmm) }

  method CopyVideoToSysShiftC(src: array<bv16>, srcOff: nat, dst: array<bv16>, dstOff: nat, width: nat, shift: Shift)
    requires src != dst && srcOff + width <= src.Length && dstOff + width <= dst.Length
    modifies dst
    ensures dst[..] == Blit(old(dst[..]), dstOff, Map(ShiftRightBy(shift), src[srcOff..srcOff + width]))
  {
    CopyElements(src, srcOff, dst, dstOff, width, ShiftRightBy(shift));
  }

  /** `addr` is the address of `src[srcOff]` in bytes. */
  method CopyVideoToSysShiftSse4(
    src: array<bv16>, srcOff: nat, addr: nat, dst: array<bv16>, dstOff: nat, width: int, shift: Shift)
    requires src != dst && addr % 2 == 0
    requires srcOff + ShiftedSamples(addr, width) <= src.Length && dstOff + ShiftedSamples(addr, width) <= dst.Length
    modifies dst
    ensures dst[..] ==
      Blit(old(dst[..]), dstOff, Map(ShiftRightBy(shift), src[srcOff..srcOff + ShiftedSamples(addr, width)]))
  {
    hide Blit, Align16, Map, ShiftRightBy;
    ghost var before := dst[..];
    var f := ShiftRightBy(shift);
    var align16 := Align16(addr);
    var head := align16 / 2;
    CopyElements(src, srcOff, dst, dstOff, head, f);
    var w := width * 2 - align16;
    if w < 0 {
      return;
    }
    AlignIsEven(addr);
    ghost var n := 8 * (w / 16) + w % 16;
    assert ShiftedSamples(addr, width) == head + n;
    hide ShiftedSamples;
    ShiftRightRest(src, srcOff + head, addr + align16, dst, dstOff + head, w, shift);
    ghost var a := src[srcOff..srcOff + head];
    ghost var b := src[srcOff + head..srcOff + head + n];
    BlitTwice(before, dstOff, Map(f, a), Map(f, b));
    MapConcat(f, a, b);
    assert src[srcOff..srcOff + (head + n)] == a + b;
  }

  /** What follows the head: the vector part and the tail of `w` bytes, of which the tail copies as many samples. */
  method ShiftRightRest(
    src: array<bv16>, srcOff: nat, addr: nat, dst: array<bv16>, dstOff: nat, w: nat, shift: Shift)
    requires src != dst && addr % 16 == 0
    requires srcOff + 8 * (w / 16) + w % 16 <= src.Length && dstOff + 8 * (w / 16) + w % 16 <= dst.Length
    modifies dst
    ensures dst[..] ==
      Blit(old(dst[..]), dstOff, Map(ShiftRightBy(shift), src[srcOff..srcOff + (8 * (w / 16) + w % 16)]))
  {
    hide Blit, VectorDone, Map, ShiftRightBy;
    ghost var before := dst[..];
    var n := 8 * (w / 16);
    Srli16KeepsLanes(shift);
    CopyRegisters(src, srcOff, addr, dst, dstOff, w / 16, true, Srli16(shift));
    RightVector(src[srcOff..], dst[..], dstOff, w / 16, shift, before);
    ghost var a, b := src[srcOff..srcOff + n], src[srcOff + n..srcOff + n + w % 16];
    assert src[srcOff..][..n] == a;
    CopyElements(src, srcOff + n, dst, dstOff + n, w % 16, ShiftRightBy(shift));
    BlitTwice(before, dstOff, Map(ShiftRightBy(shift), a), Map(ShiftRightBy(shift), b));
    MapConcat(ShiftRightBy(shift), a, b);
    assert src[srcOff..srcOff + (n + w % 16)] == a + b;
  }

  lemma Srli16KeepsLanes(shift: Shift)
    ensures IsVectorOp(Srli16(shift))
  {
  }

  lemma RightVector(row: seq<bv16>, now: seq<bv16>, dstOff: nat, regs: nat, shift: Shift, before: seq<bv16>)
    requires IsVectorOp(Srli16(shift)) && VectorDone(row, now, dstOff, true, Srli16(shift), regs, before)
    ensures 8 * regs <= |row| && dstOff + 8 * regs <= |before|
    ensures now == Blit(before, dstOff, Map(ShiftRightBy(shift), row[..8 * regs]))
  {
    hide Blit;
    LaneWise(Srli16(shift), ShiftRightBy(shift), true, row[..8 * regs], regs);
  }

  // ----- the left shift -----

  function ShiftLeftBy(shift: Shift): bv16 -> bv16 { x => Shl(x, shift) }

  /** Word `i` of a register whose words are shifted in pairs. */
  function ShiftedInPair(xmm: seq<bv16>, i: nat, shift: Shift): bv16
    requires i < |xmm|
  {
    if i % 2 == 1 then LaneHigh(xmm[i - 1], xmm[i], shift)
    else LaneLow(xmm[i], if i + 1 < |xmm| then xmm[i + 1] else 0, shift)
  }

  /** `_mm_slli_epi32` */
  function Slli32(xmm: seq<bv16>, shift: Shift): (r: seq<bv16>)
    ensures |r| == |xmm|
    ensures forall i :: 0 <= i < |r| ==> r[i] == ShiftedInPair(xmm, i, shift)
  {
    seq(|xmm|, i requires 0 <= i < |xmm| => ShiftedInPair(xmm, i, shift))
  }

  function Slli32Op(shift: Shift): seq<bv16> -> seq<bv16> { xmm => Slli32(xmm, shift) }

  method CopySysToVideoShiftC(src: array<bv16>, srcOff: nat, dst: array<bv16>, dstOff: nat, width: nat, shift: Shift)
    requires src != dst && srcOff + width <= src.Length && dstOff + width <= dst.Length
    modifies dst
    ensures dst[..] == Blit(old(dst[..]), dstOff, Map(ShiftLeftBy(shift), src[srcOff..srcOff + width]))
  {
    CopyElements(src, srcOff, dst, dstOff, width, ShiftLeftBy(shift));
  }

  /** What the SSE4 left shift writes: pairs in the vector part, single samples in the tail. */
  function FastLeft(row: seq<bv16>, regs: nat, shift: Shift): (r: seq<bv16>)
    requires 8 * regs <= |row|
    ensures |r| == |row|
  {
    Slli32(row[..8 * regs], shift) + Map(ShiftLeftBy(shift), row[8 * regs..])
  }

  /** `addr` is the address of `src[srcOff]` in bytes. */
  method CopySysToVideoShiftSse4(
    src: array<bv16>, srcOff: nat, addr: nat, dst: array<bv16>, dstOff: nat, width: int, shift: Shift)
    requires src != dst && LeftIsLoadable(addr, width)
    requires srcOff + LeftSamples(addr, width) <= src.Length && dstOff + LeftSamples(addr, width) <= dst.Length
    modifies dst
    ensures dst[..] == Blit(old(dst[..]), dstOff,
      FastLeft(src[srcOff..srcOff + LeftSamples(addr, width)], LeftRegs(addr, width), shift))
  {
    hide Blit, Map, ShiftLeftBy, Slli32, Align16, FastLeft;
    ghost var before := dst[..];
    AlignIsZero(addr);
    var align16 := Align16(addr);
    CopyElements(src, srcOff, dst, dstOff, align16, ShiftLeftBy(shift));
    ghost var a := src[srcOff..srcOff + align16];
    var w := width * 2 - align16;
    if w < 0 {
      HeadOnly(a, shift);
      return;
    }
    ghost var n := 8 * (w / 16);
    ShiftLeftRest(src, srcOff + align16, addr + 2 * align16, dst, dstOff + align16, w, shift);
    ghost var b := src[srcOff + align16..srcOff + align16 + n];
    ghost var c := src[srcOff + align16 + n..srcOff + align16 + n + w % 16];
    BlitTwice(before, dstOff, Map(ShiftLeftBy(shift), a), Slli32(b, shift) + Map(ShiftLeftBy(shift), c));
    FastLeftParts(a, b, c, src[srcOff..srcOff + LeftSamples(addr, width)], shift);
  }

  /** What follows the head: the vector part and the tail of `w` bytes, of which the tail copies as many samples. */
  method ShiftLeftRest(
    src: array<bv16>, srcOff: nat, addr: nat, dst: array<bv16>, dstOff: nat, w: nat, shift: Shift)
    requires src != dst && (w >= 16 ==> addr % 16 == 0)
    requires srcOff + 8 * (w / 16) + w % 16 <= src.Length && dstOff + 8 * (w / 16) + w % 16 <= dst.Length
    modifies dst
    ensures var n := 8 * (w / 16);
            dst[..] == Blit(old(dst[..]), dstOff, Slli32(src[srcOff..srcOff + n], shift)
                              + Map(ShiftLeftBy(shift), src[srcOff + n..srcOff + n + w % 16]))
  {
    hide Blit, VectorDone, Map, ShiftLeftBy, Slli32;
    ghost var before := dst[..];
    var n := 8 * (w / 16);
    Slli32KeepsLanes(shift);
    CopyRegisters(src, srcOff, addr, dst, dstOff, w / 16, true, Slli32Op(shift));
    LeftVector(src[srcOff..], dst[..], dstOff, w / 16, shift, before);
    assert src[srcOff..][..n] == src[srcOff..srcOff + n];
    CopyElements(src, srcOff + n, dst, dstOff + n, w % 16, ShiftLeftBy(shift));
    BlitTwice(before, dstOff, Slli32(src[srcOff..srcOff + n], shift),
              Map(ShiftLeftBy(shift), src[srcOff + n..srcOff + n + w % 16]));
  }

  /** Head, registers and tail of a row that has no head or no registers. */
  lemma FastLeftParts(a: seq<bv16>, b: seq<bv16>, c: seq<bv16>, row: seq<bv16>, shift: Shift)
    requires row == a + b + c && |b| % 8 == 0 && (a == [] || b == [])
    ensures FastLeft(row, |b| / 8, shift)
         == Map(ShiftLeftBy(shift), a) + (Slli32(b, shift) + Map(ShiftLeftBy(shift), c))
  {
    hide Map, Slli32;
    if a == [] {
      assert Map(ShiftLeftBy(shift), a) == [];
      assert row[..|b|] == b && row[|b|..] == c;
    } else {
      assert row[..0] == b && row[0..] == row == a + c;
      MapConcat(ShiftLeftBy(shift), a, c);
    }
  }

  lemma HeadOnly(a: seq<bv16>, shift: Shift)
    ensures FastLeft(a, 0, shift) == Map(ShiftLeftBy(shift), a)
  {
    hide Map;
    assert a[..0] == [] && a[0..] == a;
  }

  lemma Slli32KeepsLanes(shift: Shift)
    ensures IsVectorOp(Slli32Op(shift))
  {
  }

  lemma {:induction false} PairWise(s: seq<bv16>, regs: nat, shift: Shift)
    requires |s| == 8 * regs
    ensures MapRegs(Slli32Op(shift), true, s, regs) == Slli32(s, shift)
  {
    hide Slli32, MapRegs;
    if regs == 0 {
      NoRegs(Slli32Op(shift), true, s);
      assert |Slli32(s, shift)| == 0;
    } else {
      var n := 8 * (regs - 1);
      OneMoreReg(Slli32Op(shift), true, s, regs);
      PairWise(s[..n], regs - 1, shift);
      PairsConcat(s[..n], s[n..], shift);
      assert s[..n] + s[n..] == s;
    }
  }

  lemma {:induction false} NoRegs<T>(op: seq<T> -> seq<T>, words: bool, s: seq<T>)
    requires |s| == 0
    ensures MapRegs(op, words, s, 0) == []
  {
  }

  lemma OneMoreReg<T>(op: seq<T> -> seq<T>, words: bool, s: seq<T>, regs: nat)
    requires |s| == Lanes(words, regs) && regs > 0
    ensures var n := Lanes(words, regs - 1);
            MapRegs(op, words, s, regs) == MapRegs(op, words, s[..n], regs - 1) + op(s[n..])
  {
  }

  lemma PairsConcat(a: seq<bv16>, b: seq<bv16>, shift: Shift)
    requires |a| % 2 == 0
    ensures Slli32(a + b, shift) == Slli32(a, shift) + Slli32(b, shift)
  {
    hide ShiftedInPair, Slli32;
    forall i | 0 <= i < |a + b|
      ensures Slli32(a + b, shift)[i] == (Slli32(a, shift) + Slli32(b, shift))[i]
    {
      PairInConcat(a, b, i, shift);
    }
  }

  lemma PairInConcat(a: seq<bv16>, b: seq<bv16>, i: nat, shift: Shift)
    requires |a| % 2 == 0 && i < |a| + |b|
    ensures ShiftedInPair(a + b, i, shift)
         == if i < |a| then ShiftedInPair(a, i, shift) else ShiftedInPair(b, i - |a|, shift)
  {
    hide LaneLow, LaneHigh;
  }

  lemma LeftVector(row: seq<bv16>, now: seq<bv16>, dstOff: nat, regs: nat, shift: Shift, before: seq<bv16>)
    requires IsVectorOp(Slli32Op(shift)) && VectorDone(row, now, dstOff, true, Slli32Op(shift), regs, before)
    ensures 8 * regs <= |row| && dstOff + 8 * regs <= |before|
    ensures now == Blit(before, dstOff, Slli32(row[..8 * regs], shift))
  {
    hide Blit;
    PairWise(row[..8 * regs], regs, shift);
  }

  /** A pair is shifted as two words exactly if its even word carries nothing out. */
  lemma PairShift(v: seq<bv16>, k: nat, shift: Shift)
    requires k % 2 == 0 && k + 1 < |v|
    ensures Slli32(v, shift)[k] == Shl(v[k], shift)
    ensures Slli32(v, shift)[k + 1] == Shl(v[k + 1], shift) <==> CarriedOut(v[k], shift) == 0
  {
    hide LaneLow, LaneHigh, CarriedOut, Shl;
    LaneLowIsShift(v[k], v[k + 1], shift);
    LaneHighIsShift(v[k], v[k + 1], shift);
  }

  /** No even-index sample carries bits into its neighbour: all of them are below 2^(16 - shift). */
  ghost predicate NothingCarried(v: seq<bv16>, shift: Shift) {
    forall k :: 0 <= k < |v| && k % 2 == 0 ==> CarriedOut(v[k], shift) == 0
  }

  lemma PairsShift(v: seq<bv16>, pairs: nat, shift: Shift)
    requires |v| == 2 * pairs
    ensures Slli32(v, shift) == Map(ShiftLeftBy(shift), v) <==> NothingCarried(v, shift)
  {
    hide Slli32, Map, CarriedOut, ShiftLeftBy;
    var fast, slow := Slli32(v, shift), Map(ShiftLeftBy(shift), v);
    forall k | 0 <= k < |v| && k % 2 == 0
      ensures fast[k] == slow[k]
      ensures fast[k + 1] == slow[k + 1] <==> CarriedOut(v[k], shift) == 0
    {
      PairShift(v, k, shift);
      SimpleShift(v[k], shift);
      SimpleShift(v[k + 1], shift);
    }
    if NothingCarried(v, shift) {
      forall k | 0 <= k < |v| ensures fast[k] == slow[k] {
        if k % 2 == 1 {
          assert fast[k - 1] == slow[k - 1] && CarriedOut(v[k - 1], shift) == 0;
        }
      }
    }
  }

  lemma SimpleShift(x: bv16, shift: Shift)
    ensures ShiftLeftBy(shift)(x) == Shl(x, shift)
  {
    hide Shl;
  }

  lemma SameTail<T>(a: seq<T>, b: seq<T>, c: seq<T>)
    requires |a| == |b|
    ensures a + c == b + c <==> a == b
  {
    assert (a + c)[..|a|] == a && (b + c)[..|a|] == b;
  }

  /** The fast left shift writes what the simple one does if and only if nothing is carried between the
      samples of its vector part. */
  lemma FastLeftIsSimpleLeft(row: seq<bv16>, regs: nat, shift: Shift)
    requires 8 * regs <= |row|
    ensures FastLeft(row, regs, shift) == Map(ShiftLeftBy(shift), row) <==> NothingCarried(row[..8 * regs], shift)
  {
    hide Slli32, Map, NothingCarried, ShiftLeftBy, ShiftedInPair;
    var f, v, rest := ShiftLeftBy(shift), row[..8 * regs], row[8 * regs..];
    VectorAndTail(row, regs, shift);
    hide FastLeft, CarriedOut;
    PairsShift(v, 4 * regs, shift);
    SameTail(Slli32(v, shift), Map(f, v), Map(f, rest));
  }

  lemma VectorAndTail(row: seq<bv16>, regs: nat, shift: Shift)
    requires 8 * regs <= |row|
    ensures var f, v, rest := ShiftLeftBy(shift), row[..8 * regs], row[8 * regs..];
            && FastLeft(row, regs, shift) == Slli32(v, shift) + Map(f, rest)
            && Map(f, row) == Map(f, v) + Map(f, rest)
  {
    hide Slli32, Map, ShiftLeftBy, ShiftedInPair;
    MapConcat(ShiftLeftBy(shift), row[..8 * regs], row[8 * regs..]);
    assert row == row[..8 * regs] + row[8 * regs..];
  }
}
