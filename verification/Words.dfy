/**
  One 64-bit memory word, seen the way the paging hardware sees it.

  Physical memory is untyped: a frame is 512 words whether it currently holds a page
  table or a user's data.  A word is therefore always a value of this record, whose
  fields partition the 64 bits; module PageBits relates the record to the bit masks.
 */
module Words {

  /** Bits 12-51, 0, 1, 2, 9, 63, then the remaining low (3-8, 10, 11) and high (52-62) bits. */
  datatype Word = Word(frame: nat, p: bool, w: bool, u: bool, cow: bool, xd: bool, low: nat, high: nat)

  const ZERO := Word(0, false, false, false, false, false, 0, 0)

  /** KERNEL_FLAGS and USER_FLAGS as the words that carry exactly those bits. */
  const KERNEL_FLAGS := Word(0, true, true, false, false, false, 0, 0)
  const USER_FLAGS := Word(0, true, true, true, false, false, 0, 0)

  /** Words in one frame, and entries in one page table. */
  const ENTRIES: nat := 512

  /** A frame cleared by memset. */
  function Zeros(): (r: seq<Word>)
    ensures |r| == ENTRIES && forall i :: 0 <= i < ENTRIES ==> r[i] == ZERO
  {
    seq(ENTRIES, i => ZERO)
  }
}
