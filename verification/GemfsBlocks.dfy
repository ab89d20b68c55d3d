/**
  Block numbers and sector addresses (GemFS_BlockToLBA and GemFS_LBAToBlock), in the source's
  64-bit arithmetic.
 */
module GemfsBlocks {
  import opened Registers
  import opened Division

  /** A volume not formatted yet counts as having blocks of one sector. */
  function BlockSize(stored: nat): (bs: nat)
    ensures bs >= 1
  {
    if stored == 0 then 1 else stored
  }

  function Wrap(x: int): U64 {
    x % TWO_64
  }

  function BlockToLba(stored: nat, start: nat, block: U64): U64 {
    Wrap(block * BlockSize(stored) + start)
  }

  function LbaToBlock(stored: nat, start: nat, lba: U64): U64 {
    Wrap(lba - start) / BlockSize(stored)
  }

  lemma WrapSame(x: int, y: int)
    ensures Wrap(Wrap(x) + y) == Wrap(x + y)
  {
  }

  /** The sectors of a partition's blocks lead back to the blocks, as long as nothing wraps. */
  lemma BlockRoundTrip(stored: nat, start: nat, block: U64)
    requires block * BlockSize(stored) + start < TWO_64
    ensures LbaToBlock(stored, start, BlockToLba(stored, start, block)) == block
  {
    var bs := BlockSize(stored);
    MulStep(0, bs, 1);
    DivUnique(block * bs, bs, block, 0);
  }

  lemma WrapMinus(x: U64, r: U64)
    ensures Wrap(x - r) == x <==> r == 0
  {
  }

  /** A sector comes back from its block exactly when it is the first of the block, counted from
      the partition's start. */
  lemma LbaRoundTripIff(stored: nat, start: nat, lba: U64)
    ensures BlockToLba(stored, start, LbaToBlock(stored, start, lba)) == lba
            <==> Wrap(lba - start) % BlockSize(stored) == 0
  {
    var bs, w := BlockSize(stored), Wrap(lba - start);
    Euclid(w, bs);
    var q, r := w / bs, w % bs;
    assert q == LbaToBlock(stored, start, lba);
    hide BlockSize;
    WrapSame(lba - start, start - r);
    assert w + (start - r) == q * bs + start;
    assert lba - start + (start - r) == lba - r;
    assert BlockToLba(stored, start, q) == Wrap(lba - r);
    hide Wrap; hide LbaToBlock; hide BlockToLba;
    WrapMinus(lba, r);
  }
}
