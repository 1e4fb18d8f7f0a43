/** Segmented pointers: a 32-bit value whose high byte names a segment and
    whose low 24 bits are an offset inside it.

    `GETSEGNUM` is the high byte and `GETSEGOFFSET` the low 24 bits.  The
    conversion of a segmented pointer to an offset inside a particular file
    (`Seg2Filespace`, which also takes the file's base address) is not part of
    this model: every operation that needs it takes it as the parameter `s2f`.
 */
module Segments {

  type U32 = x: nat | x < 0x1_0000_0000

  const SEGMENT_SPAN: nat := 0x100_0000

  /** `Seg2Filespace(segmentedAddress, baseAddress)`: file offset of a pointer. */
  type Seg2FilespaceFn = (nat, nat) -> nat

  /** `GETSEGNUM`: the segment number, the high byte of the pointer. */
  function SegNum(p: U32): (s: nat)
    ensures s < 0x100
  {
    p / SEGMENT_SPAN
  }

  /** `GETSEGOFFSET`: the low 24 bits of the pointer. */
  function SegOffset(p: U32): (o: nat)
    ensures o < SEGMENT_SPAN
  {
    p % SEGMENT_SPAN
  }

  /** The pointer with segment `seg` and offset `offset`. */
  function MakeSegPtr(seg: nat, offset: nat): U32
    requires seg < 0x100 && offset < SEGMENT_SPAN
  {
    seg * SEGMENT_SPAN + offset
  }

  /** A pointer is its segment and its offset, and nothing else. */
  lemma SegPtrSplit(p: U32)
    ensures MakeSegPtr(SegNum(p), SegOffset(p)) == p
  {
  }

  lemma SegPtrParts(seg: nat, offset: nat)
    requires seg < 0x100 && offset < SEGMENT_SPAN
    ensures SegNum(MakeSegPtr(seg, offset)) == seg
    ensures SegOffset(MakeSegPtr(seg, offset)) == offset
  {
  }

  /** Bitwise OR of two naturals. */
  function BitOr(a: nat, b: nat): (r: nat)
    ensures r >= a && r >= b
    decreases a + b
  {
    if a == 0 then b
    else if b == 0 then a
    else 2 * BitOr(a / 2, b / 2) + (if a % 2 == 1 || b % 2 == 1 then 1 else 0)
  }

  lemma {:induction false} BitOrBound(a: nat, b: nat, k: nat)
    requires a < Pow2(k) && b < Pow2(k)
    ensures BitOr(a, b) < Pow2(k)
    decreases a + b
  {
    if a != 0 && b != 0 {
      BitOrBound(a / 2, b / 2, k - 1);
    }
  }

  function Pow2(k: nat): (r: nat)
    ensures r >= 1
  {
    if k == 0 then 1 else 2 * Pow2(k - 1)
  }

  /** `(segNumber << 0x18) | symbolAddress` computed in 32 bits, as the
      segment-reference lookup builds the pointer it names: only the low byte
      of the segment number survives the shift, and it is OR-ed into the high
      byte of the address. */
  function SegPtrOf(segNumber: int, address: U32): (p: U32)
    ensures address < SEGMENT_SPAN && 0 <= segNumber < 0x100 ==>
              p == MakeSegPtr(segNumber, address)
  {
    assert Pow2(8) == 0x100;
    BitOrBound(segNumber % 0x100, address / SEGMENT_SPAN, 8);
    BitOr(segNumber % 0x100, address / SEGMENT_SPAN) * SEGMENT_SPAN + address % SEGMENT_SPAN
  }
}
