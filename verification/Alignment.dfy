/** How many elements the SSE4 row copies write, given the address of the row. */
module Alignment {

  /** Bytes up to the next 16-byte boundary: `(0x10 - (addr & 0xf)) & 0xf`. */
  function Align16(addr: nat): (a: nat)
    ensures a < 16 && (addr + a) % 16 == 0
  {
    if addr % 16 == 0 then 0 else 16 - addr % 16
  }

  /** Bytes the SSE4 copy writes: the head is copied before the width is compared with it. */
  function CopiedBytes(addr: nat, width: int): nat {
    if width < Align16(addr) then Align16(addr) else width
  }

  /** The fast form copies exactly the row if and only if the row is at least as long as the unaligned head. */
  lemma CopiesExactlyTheRow(addr: nat, width: int)
    ensures CopiedBytes(addr, width) == width <==> Align16(addr) <= width
    ensures CopiedBytes(addr, width) in {width, Align16(addr)} && Align16(addr) <= CopiedBytes(addr, width)
  {
  }

  /** Samples the SSE4 right shift writes for an even address: the tail counts bytes but copies samples. */
  function ShiftedSamples(addr: nat, width: int): nat {
    var w := width * 2 - Align16(addr);
    Align16(addr) / 2 + if w < 0 then 0 else 8 * (w / 16) + w % 16
  }

  /** The fast form writes exactly the row if and only if the bytes after the head are whole registers. */
  lemma ShiftsExactlyTheRow(addr: nat, width: int)
    requires addr % 2 == 0
    ensures ShiftedSamples(addr, width) == width <==>
      width * 2 >= Align16(addr) && (width * 2 - Align16(addr)) % 16 == 0
  {
    AlignIsEven(addr);
    hide Align16;
    var w := width * 2 - Align16(addr);
    assert w == 16 * (w / 16) + w % 16;
  }

  /** Otherwise it writes half a sample too many for every byte of its tail, or the head alone if the row is shorter. */
  lemma ShiftOverrun(addr: nat, width: int)
    requires addr % 2 == 0
    ensures var head, rest := Align16(addr), width * 2 - Align16(addr);
            2 * ShiftedSamples(addr, width) == if rest < 0 then head else 2 * width + rest % 16
  {
    AlignIsEven(addr);
    hide Align16;
    var rest := width * 2 - Align16(addr);
    assert rest == 16 * (rest / 16) + rest % 16;
  }

  lemma AlignIsEven(addr: nat)
    requires addr % 2 == 0
    ensures Align16(addr) % 2 == 0
  {
  }

  /** Bytes the SSE4 left shift has left for its vector part and tail; negative if the head was too long. */
  function LeftBytes(addr: nat, width: int): int { width * 2 - Align16(addr) }

  /** Registers of its vector part. */
  function LeftRegs(addr: nat, width: int): nat {
    if LeftBytes(addr, width) < 0 then 0 else LeftBytes(addr, width) / 16
  }

  /** Samples it writes: both its head and its tail count bytes but copy samples. */
  function LeftSamples(addr: nat, width: int): nat {
    Align16(addr) + if LeftBytes(addr, width) < 0 then 0 else 8 * LeftRegs(addr, width) + LeftBytes(addr, width) % 16
  }

  /** After its head the source is aligned only if it was aligned before: the loads of any other row fault. */
  lemma LeftLoadsAreAligned(addr: nat)
    ensures (addr + 2 * Align16(addr)) % 16 == 0 <==> addr % 16 == 0
  {
  }

  /** The row can be shifted without an unaligned vector load: it is aligned, or too short for a register. */
  predicate LeftIsLoadable(addr: nat, width: int) {
    addr % 16 == 0 || LeftRegs(addr, width) == 0
  }

  /** The fast left shift writes exactly the row if and only if the row is aligned and a multiple of eight samples. */
  lemma LeftShiftsExactlyTheRow(addr: nat, width: nat)
    requires addr % 2 == 0
    ensures LeftSamples(addr, width) == width <==> addr % 16 == 0 && width % 8 == 0
  {
    AlignIsEven(addr);
    AlignIsZero(addr);
    hide Align16;
    var w := LeftBytes(addr, width);
    assert w == 16 * (w / 16) + w % 16;
    assert width == 8 * (width / 8) + width % 8;
  }

  /** Otherwise it writes half a sample too many for every byte of its head and tail, or a sample for every byte of the
      head alone if the row is shorter. */
  lemma LeftOverrun(addr: nat, width: int)
    ensures var head, rest := Align16(addr), width * 2 - Align16(addr);
            2 * LeftSamples(addr, width) == if rest < 0 then 2 * head else 2 * width + head + rest % 16
    ensures var rest := width * 2 - Align16(addr);
            rest >= 0 ==> 16 * LeftRegs(addr, width) <= rest < 16 * LeftRegs(addr, width) + 16
    ensures LeftRegs(addr, width) > 0 ==> 16 <= width * 2 - Align16(addr)
  {
    hide Align16;
    var rest := width * 2 - Align16(addr);
    assert rest == 16 * (rest / 16) + rest % 16;
  }

  lemma AlignIsZero(addr: nat)
    ensures Align16(addr) == 0 <==> addr % 16 == 0
  {
  }
}
