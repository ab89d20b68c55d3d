/**
  A GemFS volume (src/kernel/drivers/filesys/gemfs.c): the chain of directory entries that
  grows on demand, the block allocator, and file contents, over an array of sectors.

  Blocks are numbered within the partition and hold one sector each, as formatting sets up.
 */
module GemfsVolume {
  import opened GemfsCodec
  import opened GemfsBitmap
  import opened GemfsLayout

  type Disk = map<nat, Sector>

  function Block(disk: Disk, b: nat): Sector {
    if b in disk then disk[b] else ZeroBytes(SECTOR)
  }

  // ---------------------------------------------------------------------------------
  // The entry chain
  // ---------------------------------------------------------------------------------

  /** A volume's disk, the main record cached in memory, and two facts about the disk kept
      beside it: the block of every entry, in chain order, and the number of blocks in use. */
  datatype Vol = Vol(disk: Disk, main: Main, chain: seq<nat>, top: nat)

  /** Entry k as it is on disk; entry 0 lives in the main record. */
  function EntryOf(v: Vol, k: nat): Entry
    requires k < |v.chain|
  {
    if k == 0 then v.main.entry else DecodeEntry(Block(v.disk, v.chain[k]))
  }

  ghost predicate Core(v: Vol) {
    && MainOk(v.main) && v.main.blockSize == 1 && DecodeMain(Block(v.disk, MAIN_BLOCK)) == v.main
    && FIRST_FREE <= v.top && UsedBelow(Block(v.disk, BITMAP_BLOCK), v.top)
    && ChainOk(v.chain, v.top)
  }

  /** Every entry but the last names the next entry's block. */
  ghost predicate Linked(v: Vol) {
    forall k :: 0 <= k < |v.chain| - 1 ==> EntryOf(v, k).next == v.chain[k + 1]
  }

  ghost predicate Terminated(v: Vol)
    requires v.chain != []
  {
    EntryOf(v, |v.chain| - 1).next == 0
  }

  ghost predicate Valid(v: Vol) {
    Core(v) && Linked(v) && Terminated(v)
  }

  /** An entry without its link: what users of the chain see. */
  function Meta(e: Entry): Entry {
    e.(next := 0)
  }

  ghost predicate SameEntry(v: Vol, v': Vol, k: nat)
    requires k < |v.chain| && k < |v'.chain|
  {
    Meta(EntryOf(v', k)) == Meta(EntryOf(v, k))
  }

  /** v' is v with entries added at the end of the chain, up to n in all, each unused and in
      the next free block; old entries, their blocks and all data are as they were. */
  ghost predicate Extended(v: Vol, v': Vol, n: nat) {
    && Valid(v') && |v.chain| <= n == |v'.chain| && v.chain <= v'.chain
    && v'.top == v.top + (n - |v.chain|)
    && (forall k :: |v.chain| <= k < n ==> v'.chain[k] == v.top + (k - |v.chain|))
    && (forall k :: 0 <= k < |v.chain| ==> SameEntry(v, v', k))
    && (forall k :: |v.chain| <= k < n ==> EntryOf(v', k).flags == 0 && EntryOf(v', k).index == k)
    && (forall b :: DataBlock(v'.chain, b) ==> Block(v'.disk, b) == Block(v.disk, b))
  }

  /** Entries that index needs and the chain lacks. */
  function MissingEntries(v: Vol, index: nat): nat {
    if index >= |v.chain| then index + 1 - |v.chain| else 0
  }

  lemma ExtendedReflexive(v: Vol)
    requires Valid(v)
    ensures Extended(v, v, |v.chain|)
  {
  }

  lemma ExtendedTransitive(v: Vol, v1: Vol, v2: Vol)
    requires Extended(v, v1, |v1.chain|) && Extended(v1, v2, |v2.chain|)
    ensures Extended(v, v2, |v2.chain|)
  {
    hide Valid; hide EntryOf; hide Block;
    forall k | 0 <= k < |v.chain| ensures SameEntry(v, v2, k) {
      assert SameEntry(v, v1, k) && SameEntry(v1, v2, k);
    }
    forall k | |v.chain| <= k < |v1.chain| ensures EntryOf(v2, k).flags == 0 && EntryOf(v2, k).index == k {
      assert SameEntry(v1, v2, k);
    }
    forall b | DataBlock(v2.chain, b) ensures Block(v2.disk, b) == Block(v.disk, b) {
      assert DataBlock(v1.chain, b);
    }
  }

  // ---------------------------------------------------------------------------------
  // Writing entries and data
  // ---------------------------------------------------------------------------------

  /** The disk and cached main record after entry i has been written. */
  function WithEntry(v: Vol, i: nat, e: Entry): Vol
    requires i < |v.chain| && MainOk(v.main)
  {
    if i == 0 then
      var main := v.main.(entry := e);
      v.(disk := v.disk[MAIN_BLOCK := EncodeMain(main)], main := main)
    else v.(disk := v.disk[v.chain[i] := EncodeEntry(e)])
  }

  /** Reading an index after writing it returns the written entry; other indices keep theirs,
      and no other block changes. */
  lemma WithEntrySpec(v: Vol, i: nat, e: Entry)
    requires Core(v) && i < |v.chain|
    ensures var v' := WithEntry(v, i, e);
            && Core(v') && v'.chain == v.chain && v'.top == v.top
            && (forall k :: 0 <= k < |v.chain| ==> EntryOf(v', k) == if k == i then e else EntryOf(v, k))
            && (forall b :: b != v.chain[i] ==> Block(v'.disk, b) == Block(v.disk, b))
  {
    hide EncodeEntry; hide DecodeEntry; hide EncodeMain; hide DecodeMain; hide UsedBelow;
    EntryRoundTrip(e);
    MainRoundTrip(v.main.(entry := e));
  }

  /** Writing an entry with the link it already has keeps the chain. */
  lemma WithEntryValid(v: Vol, i: nat, e: Entry)
    requires Valid(v) && i < |v.chain| && e.next == EntryOf(v, i).next
    ensures Valid(WithEntry(v, i, e))
  {
    hide UsedBelow; hide DecodeMain; hide EntryOf; hide WithEntry;
    WithEntrySpec(v, i, e);
    var v' := WithEntry(v, i, e);
    forall k | 0 <= k < |v.chain| ensures EntryOf(v', k).next == EntryOf(v, k).next {
    }
  }

  /** The state after the first free block has been taken. */
  function Taken(v: Vol): Vol
    requires v.top < SECTOR
  {
    v.(disk := v.disk[BITMAP_BLOCK := MarkUsed(Block(v.disk, BITMAP_BLOCK), v.top)], top := v.top + 1)
  }

  lemma TakenSpec(v: Vol)
    requires Core(v) && v.top < SECTOR
    ensures var v' := Taken(v);
            && Core(v') && v'.chain == v.chain
            && (forall k :: 0 <= k < |v.chain| ==> EntryOf(v', k) == EntryOf(v, k))
            && (Linked(v) ==> Linked(v')) && (Terminated(v) ==> Terminated(v'))
            && forall b :: b != BITMAP_BLOCK ==> Block(v'.disk, b) == Block(v.disk, b)
  {
    hide DecodeEntry; hide DecodeMain; hide MarkUsed; hide UsedBelow;
    MarkNext(Block(v.disk, BITMAP_BLOCK), v.top);
    var v' := Taken(v);
    forall k | 0 <= k < |v.chain| ensures EntryOf(v', k) == EntryOf(v, k) {
    }
  }

  // ---------------------------------------------------------------------------------
  // Growing the chain by one
  // ---------------------------------------------------------------------------------

  /** The last entry linked to the block taken for the next one. */
  function Linking(v: Vol): Vol
    requires Core(v) && v.top < SECTOR
  {
    TakenSpec(v);
    var last := |v.chain| - 1;
    WithEntry(Taken(v), last, EntryOf(Taken(v), last).(next := v.top))
  }

  /** ... and the block counted as part of the chain. */
  function Grown(v: Vol): Vol
    requires Core(v) && v.top < SECTOR
  {
    Linking(v).(chain := v.chain + [v.top])
  }

  lemma GrownCore(v: Vol)
    requires Valid(v) && v.top < SECTOR
    ensures var v1 := Taken(v); var v2 := Grown(v); var last := |v.chain| - 1;
            && Core(v1) && Linked(v1) && v1.chain == v.chain && v1.top == v.top + 1
            && Core(v2) && Linked(v2) && v2.chain == v.chain + [v.top] && v2.top == v.top + 1
            && (forall k :: 0 <= k < last ==> EntryOf(v2, k) == EntryOf(v, k))
            && EntryOf(v2, last) == EntryOf(v, last).(next := v.top)
            && forall b :: b != BITMAP_BLOCK && b != v.chain[last] ==> Block(v2.disk, b) == Block(v.disk, b)
  {
    hide DecodeEntry; hide DecodeMain; hide UsedBelow; hide Taken; hide WithEntry; hide EncodeEntry; hide EncodeMain;
    TakenSpec(v);
    TakenTop(v);
    var v1 := Taken(v);
    var last := |v.chain| - 1;
    WithEntrySpec(v1, last, EntryOf(v1, last).(next := v.top));
    var w, v2 := Linking(v), Grown(v);
    forall k | 0 <= k < |v.chain| ensures EntryOf(v2, k) == EntryOf(w, k) {
    }
  }

  lemma TakenTop(v: Vol)
    requires v.top < SECTOR
    ensures Taken(v).top == v.top + 1
  {
  }

  /** A new unused entry in a block just taken extends the chain. */
  lemma GrownExtends(v: Vol, e: Entry)
    requires Valid(v) && v.top < SECTOR && e.flags == 0 && e.index == |v.chain| && e.next == 0
    requires |Grown(v).chain| == |v.chain| + 1 && MainOk(Grown(v).main)
    ensures Extended(v, WithEntry(Grown(v), |v.chain|, e), |v.chain| + 1)
  {
    hide UsedBelow; hide DecodeMain; hide EntryOf; hide WithEntry; hide Block; hide Linking;
    GrownCore(v);
    var v2 := Grown(v);
    hide Grown;
    WithEntrySpec(v2, |v.chain|, e);
    var v' := WithEntry(v2, |v.chain|, e);
    forall k | 0 <= k < |v.chain| ensures SameEntry(v, v', k) {
      assert EntryOf(v', k) == EntryOf(v2, k);
    }
    forall b | DataBlock(v'.chain, b) ensures Block(v'.disk, b) == Block(v.disk, b) {
      assert v.chain[|v.chain| - 1] in v'.chain && v'.chain[|v.chain|] in v'.chain;
    }
    forall k | 0 <= k < |v'.chain| - 1 ensures EntryOf(v', k).next == v'.chain[k + 1] {
      assert EntryOf(v', k) == EntryOf(v2, k);
      assert EntryOf(v2, k).next == v2.chain[k + 1];
    }
  }
}
