/** Shifts of 16-bit words, alone and in pairs that share a 32-bit lane. */
module WordShift {

  /** Shift amounts between the sample depths of a 16-bit word. */
  type Shift = s: bv16 | s <= 15

  function Shr(x: bv16, shift: Shift): bv16 { x >> shift }

  function Shl(x: bv16, shift: Shift): bv16 { x << shift }

  /** The right shift halves once for each position. */
  lemma ShrHalves(x: bv16, shift: Shift, next: Shift)
    requires next == shift + 1
    ensures Shr(x, next) == Shr(x, shift) / 2
  {
    HalfBits(x, shift);
  }

  /** The left shift doubles once for each position and forgets what leaves the word. */
  lemma ShlDoubles(x: bv16, shift: Shift, next: Shift)
    requires next == shift + 1
    ensures Shl(x, next) == Shl(x, shift) + Shl(x, shift)
  {
    DoubleBits(x, shift);
  }

  lemma NoShift(x: bv16)
    ensures Shr(x, 0) == x && Shl(x, 0) == x
  {
  }

  lemma HalfBits(x: bv16, shift: bv16)
    requires shift <= 14
    ensures x >> (shift + 1) == (x >> shift) / 2
  {
  }

  lemma DoubleBits(x: bv16, shift: bv16)
    requires shift <= 14
    ensures x << (shift + 1) == (x << shift) + (x << shift)
  {
  }

  /** Low word of the 32-bit lane that holds `lo` and `hi`, after a left shift of the lane. */
  function LaneLow(lo: bv16, hi: bv16, shift: Shift): bv16 {
    (((((hi as bv32) << 16) | (lo as bv32)) << shift) & 0xFFFF) as bv16
  }

  /** High word of the same lane. */
  function LaneHigh(lo: bv16, hi: bv16, shift: Shift): bv16 {
    (((((hi as bv32) << 16) | (lo as bv32)) << shift) >> 16) as bv16
  }

  /** Bits of `x` that a left shift pushes out of its word. */
  function CarriedOut(x: bv16, shift: Shift): bv16 { x >> (16 - shift) }

  /** The low word of a lane is shifted as it would be alone. */
  lemma LaneLowIsShift(lo: bv16, hi: bv16, shift: Shift)
    ensures LaneLow(lo, hi, shift) == Shl(lo, shift)
  {
    LaneLowBits(lo, hi, shift);
  }

  /** The high word is, exactly if nothing is carried into it. */
  lemma LaneHighIsShift(lo: bv16, hi: bv16, shift: Shift)
    ensures LaneHigh(lo, hi, shift) == Shl(hi, shift) <==> CarriedOut(lo, shift) == 0
  {
    LaneHighBits(lo, hi, shift);
  }

  /** In general the bits that leave the low word enter the high one. */
  lemma LaneHighValue(lo: bv16, hi: bv16, shift: Shift)
    ensures LaneHigh(lo, hi, shift) == Shl(hi, shift) | CarriedOut(lo, shift)
  {
    LaneHighWord(lo, hi, shift);
  }

  lemma LaneHighWord(lo: bv16, hi: bv16, shift: Shift)
    ensures (((((hi as bv32) << 16) | (lo as bv32)) << shift) >> 16) as bv16 == (hi << shift) | (lo >> (16 - shift))
  {
  }

  lemma LaneLowBits(lo: bv16, hi: bv16, shift: Shift)
    ensures (((((hi as bv32) << 16) | (lo as bv32)) << shift) & 0xFFFF) as bv16 == lo << shift
  {
  }

  lemma LaneHighBits(lo: bv16, hi: bv16, shift: Shift)
    ensures (((((hi as bv32) << 16) | (lo as bv32)) << shift) >> 16) as bv16 == hi << shift <==> lo >> (16 - shift) == 0
  {
  }

  /** Shifting left and then right by the same amount restores a sample if and only if it is below 2^(16 - shift). */
  lemma ShiftRoundTrip(x: bv16, shift: Shift)
    ensures Shr(Shl(x, shift), shift) == x <==> CarriedOut(x, shift) == 0
  {
    RoundTripBits(x, shift);
  }

  lemma RoundTripBits(x: bv16, shift: Shift)
    ensures (x << shift) >> shift == x <==> x >> (16 - shift) == 0
  {
  }
}
