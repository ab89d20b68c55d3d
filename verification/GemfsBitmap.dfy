/**
  The free-block bitmap (FBB) of GemFS: one sector, in which block b is bit b % 8 of byte b.
 */
module GemfsBitmap {
  import opened ByteMemory
  import opened GemfsCodec

  function Mask(k: nat): (m: nat)
    requires k < 8
    ensures 1 <= m <= 128
  {
    if k == 0 then 1 else if k == 1 then 2 else if k == 2 then 4 else if k == 3 then 8
    else if k == 4 then 16 else if k == 5 then 32 else if k == 6 then 64 else 128
  }

  /** x >> k */
  function ShiftRight(x: Byte, k: nat): nat
    requires k < 8
  {
    if k == 0 then x else if k == 1 then x / 2 else if k == 2 then x / 4 else if k == 3 then x / 8
    else if k == 4 then x / 16 else if k == 5 then x / 32 else if k == 6 then x / 64 else x / 128
  }

  /** (x >> k) & 1 */
  predicate BitSet(x: Byte, k: nat)
    requires k < 8
  {
    ShiftRight(x, k) % 2 == 1
  }

  /** A clear bit leaves room for it. */
  lemma AddBound(x: Byte, k: nat)
    requires k < 8 && !BitSet(x, k)
    ensures x + Mask(k) < 256
  {
    if k < 2 {
    } else if k < 4 {
    } else if k < 6 {
    }
  }

  lemma HalfStep(x: Byte, k: nat)
    requires k < 7
    ensures ShiftRight(x, k + 1) == ShiftRight(x, k) / 2 && Mask(k + 1) == 2 * Mask(k)
  {
  }

  /** Adding bit k adds it to everything shifted by less, ... */
  lemma {:induction false} AddShifted(x: Byte, y: Byte, k: nat, j: nat)
    requires j <= k < 8 && y == x + Mask(k)
    ensures ShiftRight(y, j) == ShiftRight(x, j) + Mask(k - j)
  {
    if j > 0 {
      AddShifted(x, y, k, j - 1);
      HalfStep(x, j - 1);
      HalfStep(y, j - 1);
      HalfStep(x, k - j);
    }
  }

  /** x | (1 << k).  Setting a bit sets it. */
  function SetBit(x: Byte, k: nat): (y: Byte)
    requires k < 8
    ensures BitSet(y, k)
  {
    if BitSet(x, k) then x
    else
      AddBound(x, k);
      AddShifted(x, x + Mask(k), k, k);
      x + Mask(k)
  }

  /** ... and if it was clear, to nothing shifted by more. */
  lemma {:induction false} SameAbove(x: Byte, y: Byte, k: nat, j: nat)
    requires k < j < 8 && y == x + Mask(k) && !BitSet(x, k)
    ensures ShiftRight(y, j) == ShiftRight(x, j)
  {
    hide ShiftRight; hide Mask;
    HalfStep(x, j - 1);
    HalfStep(y, j - 1);
    if j == k + 1 {
      AddShifted(x, y, k, k);
      assert Mask(0) == 1 by {
        MaskZero();
      }
    } else {
      SameAbove(x, y, k, j - 1);
    }
  }

  lemma MaskZero()
    ensures Mask(0) == 1
  {
  }

  lemma EvenMask(k: nat)
    requires 0 < k < 8
    ensures Mask(k) % 2 == 0
  {
  }

  /** ... and no other. */
  lemma SetBitOnly(x: Byte, k: nat, j: nat)
    requires k < 8 && j < 8
    ensures BitSet(SetBit(x, k), j) <==> j == k || BitSet(x, j)
  {
    hide ShiftRight; hide Mask;
    if !BitSet(x, k) && j < k {
      AddShifted(x, SetBit(x, k), k, j);
      EvenMask(k - j);
    } else if !BitSet(x, k) && j > k {
      SameAbove(x, SetBit(x, k), k, j);
    }
  }

  predicate Used(bitmap: Sector, b: nat)
    requires b < SECTOR
  {
    BitSet(bitmap[b], b % 8)
  }

  function MarkUsed(bitmap: Sector, b: nat): Sector
    requires b < SECTOR
  {
    bitmap[b := SetBit(bitmap[b], b % 8)]
  }

  /** Of the whole sector, marking sets one bit: b % 8 of byte b. */
  lemma MarkUsedBits(bitmap: Sector, b: nat, c: nat, j: nat)
    requires b < SECTOR && c < SECTOR && j < 8
    ensures BitSet(MarkUsed(bitmap, b)[c], j) <==> (c == b && j == b % 8) || BitSet(bitmap[c], j)
  {
    hide BitSet; hide SetBit;
    SetBitOnly(bitmap[b], b % 8, j);
  }

  /** The used blocks are exactly those below `top`. */
  ghost predicate UsedBelow(bitmap: Sector, top: nat) {
    top <= SECTOR && forall b :: 0 <= b < SECTOR ==> (Used(bitmap, b) <==> b < top)
  }

  /** Marking the first free block keeps the used blocks an initial segment. */
  lemma MarkNext(bitmap: Sector, top: nat)
    requires UsedBelow(bitmap, top) && top < SECTOR
    ensures UsedBelow(MarkUsed(bitmap, top), top + 1)
  {
    hide BitSet;
    var m := MarkUsed(bitmap, top);
    forall b | 0 <= b < SECTOR ensures Used(m, b) <==> b < top + 1 {
      if b != top {
        assert m[b] == bitmap[b];
        assert Used(bitmap, b) <==> b < top;
      }
    }
  }

  /** Marking from a given block on, as CreateFile does. */
  function MarkRange(bitmap: Sector, b: nat, n: nat): Sector
    requires b + n <= SECTOR
    decreases n
  {
    if n == 0 then bitmap else MarkRange(MarkUsed(bitmap, b), b + 1, n - 1)
  }

  lemma {:induction false} MarkRangeNext(bitmap: Sector, top: nat, n: nat)
    requires UsedBelow(bitmap, top) && top + n <= SECTOR
    ensures UsedBelow(MarkRange(bitmap, top, n), top + n)
    decreases n
  {
    if n > 0 {
      MarkNext(bitmap, top);
      MarkRangeNext(MarkUsed(bitmap, top), top + 1, n - 1);
    }
  }

  /** Past the six reserved blocks, the used blocks are those below `top`. */
  ghost predicate TailUsedBelow(bitmap: Sector, top: nat) {
    6 <= top <= SECTOR && forall b :: 6 <= b < SECTOR ==> (Used(bitmap, b) <==> b < top)
  }

  /** The six blocks that formatting marks. */
  function FormatMarks(bitmap: Sector): Sector {
    MarkRange(bitmap, 0, 6)
  }

  /** The marks of formatting, on a bitmap sector it does not clear: the used
      blocks form an initial segment exactly when no later block was marked before. */
  lemma FormatLeavesSegmentIff(bitmap: Sector)
    ensures (exists top: nat :: UsedBelow(FormatMarks(bitmap), top)) <==>
              exists top: nat :: TailUsedBelow(bitmap, top)
  {
    FormatMarksSix(bitmap);
    hide FormatMarks;
    TailDecides(bitmap, FormatMarks(bitmap));
  }

  lemma TailDecides(bitmap: Sector, m: Sector)
    requires (forall b :: 0 <= b < 6 ==> Used(m, b)) && forall b :: 6 <= b < SECTOR ==> m[b] == bitmap[b]
    ensures (exists top: nat :: UsedBelow(m, top)) <==> exists top: nat :: TailUsedBelow(bitmap, top)
  {
    hide BitSet;
    if top: nat :| UsedBelow(m, top) {
      assert Used(m, 5);
      forall b | 6 <= b < SECTOR ensures Used(bitmap, b) <==> b < top {
        assert m[b] == bitmap[b];
        assert Used(m, b) <==> b < top;
      }
      assert TailUsedBelow(bitmap, top);
    }
    if top: nat :| TailUsedBelow(bitmap, top) {
      TailAndHead(bitmap, m, top);
      assert UsedBelow(m, top);
    }
  }

  lemma TailAndHead(bitmap: Sector, m: Sector, top: nat)
    requires (forall b :: 0 <= b < 6 ==> Used(m, b)) && forall b :: 6 <= b < SECTOR ==> m[b] == bitmap[b]
    requires TailUsedBelow(bitmap, top)
    ensures UsedBelow(m, top)
  {
    hide BitSet;
    forall b | 0 <= b < SECTOR ensures Used(m, b) <==> b < top {
      if b >= 6 {
        assert m[b] == bitmap[b];
        assert Used(bitmap, b) <==> b < top;
      }
    }
  }

  lemma {:induction false} MarkRangeMarks(bitmap: Sector, b: nat, n: nat)
    requires b + n <= SECTOR
    ensures var m := MarkRange(bitmap, b, n);
            forall c :: 0 <= c < SECTOR ==> if b <= c < b + n then Used(m, c) else m[c] == bitmap[c]
    decreases n
  {
    hide BitSet;
    if n > 0 {
      var m1 := MarkUsed(bitmap, b);
      MarkRangeMarks(m1, b + 1, n - 1);
      assert Used(m1, b);
    }
  }

  lemma FormatMarksSix(bitmap: Sector)
    ensures var m := FormatMarks(bitmap);
            (forall b :: 0 <= b < 6 ==> Used(m, b)) && forall b :: 6 <= b < SECTOR ==> m[b] == bitmap[b]
  {
    MarkRangeMarks(bitmap, 0, 6);
  }

  /** Marking one block after another. */
  lemma {:induction false} MarkRangeAppend(bitmap: Sector, b: nat, n: nat)
    requires b + n < SECTOR
    ensures MarkRange(bitmap, b, n + 1) == MarkUsed(MarkRange(bitmap, b, n), b + n)
    decreases n
  {
    hide BitSet;
    if n > 0 {
      MarkRangeAppend(MarkUsed(bitmap, b), b + 1, n - 1);
    }
  }
}
