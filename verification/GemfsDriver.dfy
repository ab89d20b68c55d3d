/**
  The GemFS driver on one partition: its routines over the disk, the cached main record and the
  bitmap buffer.  GetEntryBlock, CreateEntry, ReadEntry and WriteEntry call each other; what
  bounds the recursion is the number of entries that the chain still lacks.
 */
module GemfsDriver {
  import opened Wrappers
  import opened Registers
  import opened ByteMemory
  import opened GemfsCodec
  import opened GemfsBitmap
  import opened GemfsTree
  import opened GemfsLayout
  import opened GemfsVolume
  import opened GemfsFiles

  const FBB_BYTES: nat := 4096

  type Buffer = s: seq<Byte> | |s| == FBB_BYTES witness ZeroBytes(FBB_BYTES)

  /** The very first creation of entry 1 looks for it through block 0. */
  function Stray(disk: Disk): nat {
    DecodeEntry(Block(disk, 0)).next
  }

  /** Entry `index` exists, or it can be made: the chain ends properly and blocks are left. */
  ghost predicate Reachable(v: Vol, index: nat) {
    && Core(v) && Linked(v) && index < TWO_64
    && (index >= |v.chain| ==> Terminated(v) && v.top + MissingEntries(v, index) <= SECTOR)
    && (|v.chain| == 1 ==> index <= 1)
  }

  /** Looking at entry `index` leaves the volume alone, or extends the chain up to it. */
  ghost predicate Fetched(v: Vol, v': Vol, index: nat) {
    if index < |v.chain| then v' == v else Extended(v, v', index + 1)
  }

  /** The block that comes back from the very first creation is the entry's exactly when block 0
      reads as an entry that happens to be linked to the first free block. */
  lemma FirstCreationIff(v: Vol, v': Vol)
    requires Valid(v) && |v.chain| == 1 && Extended(v, v', 2)
    ensures Stray(v'.disk) == v'.chain[1] <==> Stray(v.disk) == v.top
  {
    hide DecodeEntry; hide Block; hide EntryOf; hide UsedBelow; hide DecodeMain;
    assert DataBlock(v'.chain, 0);
    assert v'.chain[|v.chain|] == v.top + (|v.chain| - |v.chain|);
  }

  /** How far GetEntryBlock has got. */
  ghost predicate Walked(v0: Vol, v: Vol, index: nat, i: nat) {
    if index < |v0.chain| then v == v0
    else Extended(v0, v, |v.chain|) && |v.chain| == if i <= |v0.chain| then |v0.chain| else i
  }

  /** Entry i of the chain as GetEntryBlock comes to it from entry i - 1. */
  ghost predicate Leads(v: Vol, i: nat)
    requires 1 <= i < |v.chain|
  {
    EntryOf(v, i - 1).next == v.chain[i] != 0 && DecodeEntry(Block(v.disk, v.chain[i])) == EntryOf(v, i)
  }

  lemma LinkLeads(v: Vol, i: nat)
    requires Core(v) && Linked(v) && 1 <= i < |v.chain|
    ensures Leads(v, i)
  {
    hide DecodeEntry; hide Block; hide UsedBelow; hide DecodeMain;
    assert EntryOf(v, i - 1).next == v.chain[i];
  }

  /** The next entry is there, or the chain ends and is to be extended. */
  lemma WalkOn(v0: Vol, v: Vol, index: nat, i: nat)
    requires Reachable(v0, index) && Walked(v0, v, index, i) && 1 <= i <= index
    ensures i <= |v.chain|
    ensures EntryOf(v, i - 1).next == 0 <==> i == |v.chain|
    ensures i == |v.chain| ==> Valid(v) && v.top < SECTOR && index >= |v0.chain|
    ensures i < |v.chain| ==> Walked(v0, v, index, i + 1) && Leads(v, i)
    ensures |v0.chain| == 1 ==> i == 1
  {
    hide EntryOf; hide Block; hide UsedBelow; hide DecodeMain;
    if i < |v.chain| {
      LinkLeads(v, i);
    }
  }

  lemma WalkMade(v0: Vol, v: Vol, v': Vol, index: nat, i: nat)
    requires Walked(v0, v, index, i) && Valid(v) && 1 <= i <= index && i == |v.chain| && index >= |v0.chain|
    requires Extended(v, v', i + 1)
    ensures Walked(v0, v', index, i + 1) && i + 1 == |v'.chain| && Leads(v', i) && v'.chain[i - 1] == v.chain[i - 1]
    ensures i > 1 ==> Leads(v', i - 1)
  {
    hide EntryOf; hide Block; hide UsedBelow; hide DecodeMain; hide SameEntry; hide Leads;
    ExtendedTransitive(v0, v, v');
    LinkLeads(v', i);
    if i > 1 {
      LinkLeads(v', i - 1);
    }
  }

  lemma WalkStart(v: Vol, index: nat)
    requires Reachable(v, index)
    ensures Walked(v, v, index, 1) && v.chain != [] && v.chain[0] == MAIN_BLOCK
  {
    hide EntryOf; hide Linked;
    if index >= |v.chain| {
      ExtendedReflexive(v);
    }
  }

  lemma WalkEnds(v0: Vol, v: Vol, index: nat)
    requires Reachable(v0, index) && Walked(v0, v, index, index + 1)
    ensures Fetched(v0, v, index)
  {
    hide EntryOf; hide Valid;
  }

  /** CreateEntry's calls find what they need. */
  lemma CreateSteps(v: Vol)
    requires Valid(v) && v.top < SECTOR && |v.chain| < TWO_64
    ensures Reachable(Taken(v), |v.chain| - 1) && Reachable(Grown(v), |v.chain|)
    ensures Taken(v).chain == v.chain && Grown(v).chain == v.chain + [v.top] && Linking(v).chain == v.chain
  {
    hide UsedBelow; hide DecodeMain; hide ChainOk; hide Linked; hide DecodeEntry; hide MarkUsed;
    GrownCore(v);
  }

  lemma TakenIs(v: Vol, v1: Vol)
    requires v.top < SECTOR && v1.main == v.main && v1.chain == v.chain && v1.top == v.top + 1
    requires v1.disk == v.disk[BITMAP_BLOCK := MarkUsed(Block(v.disk, BITMAP_BLOCK), v.top)]
    ensures v1 == Taken(v)
  {
  }

  lemma RootFirst(v: Vol)
    requires Core(v)
    ensures v.chain != [] && EntryOf(v, 0) == v.main.entry
  {
  }

  /** An entry just created is unused. */
  lemma FreshIsUnused(v: Vol, v': Vol, e: Entry)
    requires Valid(v) && Extended(v, v', |v.chain| + 1) && FirstEntryFindable(v)
    requires |v.chain| > 1 ==> e == EntryOf(v', |v.chain|)
    requires |v.chain| == 1 ==> e == DecodeEntry(Block(v'.disk, Stray(v'.disk)))
    ensures !InUse(e)
  {
    hide DecodeEntry; hide Block; hide EntryOf; hide UsedBelow; hide DecodeMain;
    assert DataBlock(v'.chain, 0);
  }

  /** What GemFS_mkdir's call of GemFS_FindFreeEntry needs. */
  lemma MkdirNeeds(v: Vol, parent: nat, flags: Byte, size: nat)
    requires VolumeOk(v) && Fits(LayoutOf(v), parent, flags, size)
    ensures Valid(v) && |v.chain| < TWO_64 && v.top + size < SECTOR
  {
  }

  lemma ValidReachable(v: Vol)
    requires Valid(v) && 1 < |v.chain| <= TWO_64
    ensures forall k :: 0 <= k < |v.chain| ==> Reachable(v, k)
    ensures EntryOf(v, |v.chain| - 1).next == 0 && MainOk(v.main)
  {
    hide EntryOf; hide UsedBelow; hide DecodeMain;
  }

  /** ... and its marking of a block. */
  lemma MkdirMarks(v: Vol, v1: Vol, free: nat, parent: nat, flags: Byte)
    requires VolumeOk(v) && Fits(LayoutOf(v), parent, flags, 0) && Prepared(v, v1, parent, flags)
    requires free == NextIndex(LayoutOf(v))
    ensures v1.top < SECTOR && v1.main.blockSize == 1 && UsedBelow(Block(v1.disk, BITMAP_BLOCK), v1.top)
    ensures parent < free == |v1.chain| - 1 && |v1.chain| <= TWO_64
    ensures var v2 := Taken(v1);
            && Valid(v2) && v2.chain == v1.chain && v2.top == v1.top + 1 && Entries(v2) == Entries(v1) && SameData(v1, v2)
            && CanAdd(Entries(v2), parent, flags)
            && forall k :: 0 <= k < |v1.chain| ==> Reachable(v2, k)
  {
    hide CanAdd; hide IsDir; hide InUse; hide DecodeMain; hide EntryOf; hide SameData; hide Taken; hide LayoutOk;
    EntriesTaken(v1);
    hide Entries; hide Reachable; hide Block; hide UsedBelow;
    ValidReachable(Taken(v1));
  }

  lemma AfterHook(v2: Vol, a: Vol, parent: nat, p: Entry, free: nat)
    requires Valid(v2) && 1 < |v2.chain| <= TWO_64 && free == |v2.chain| - 1 && parent < |v2.chain|
    requires if p.start == 0 then a == v2
             else var tail := LastSibling(Entries(v2), p.start);
                  tail < |v2.chain| && Wrote(v2, a, tail, EntryOf(v2, tail).(sibling := free))
    ensures Valid(a) && a.chain == v2.chain && a.top == v2.top && MainOk(a.main) && EntryOf(a, free).next == 0
    ensures EntryOf(a, parent).next == EntryOf(v2, parent).next
    ensures forall k :: 0 <= k < |a.chain| ==> Reachable(a, k)
  {
    hide EntryOf; hide Entries; hide LastSibling; hide Valid; hide Reachable; hide SameData;
    ValidReachable(a);
  }

  lemma AfterNew(v2: Vol, a: Vol, b: Vol, parent: nat, free: nat, e: Entry)
    requires 1 < |v2.chain| <= TWO_64 && parent < |v2.chain| && a.chain == v2.chain && a.top == v2.top
    requires EntryOf(a, parent).next == EntryOf(v2, parent).next && Wrote(a, b, free, e)
    ensures Valid(b) && b.chain == v2.chain && b.top == v2.top && MainOk(b.main)
    ensures EntryOf(b, parent).next == EntryOf(v2, parent).next
    ensures forall k :: 0 <= k < |b.chain| ==> Reachable(b, k)
  {
    hide EntryOf; hide Entries; hide LastSibling; hide Valid; hide Reachable; hide SameData;
    ValidReachable(b);
  }

  /** n blocks have been marked. */
  ghost predicate Marked(v: Vol, u: Vol, n: nat) {
    Valid(u) && u.chain == v.chain && u.top == v.top + n && Entries(u) == Entries(v) && SameData(v, u)
  }

  lemma MarkedStep(v: Vol, u: Vol, i: nat, parent: nat, flags: Byte, size: nat)
    requires Marked(v, u, i) && i < size && Fits(LayoutOf(v), parent, flags, size)
    ensures u.top == v.top + i < SECTOR && u.main.blockSize == 1 && Marked(v, Taken(u), i + 1)
  {
    hide Entries; hide Linked; hide Terminated; hide Block; hide IsDir; hide Taken; hide ChainOk; hide UsedBelow;
    EntriesTaken(u);
  }

  lemma MarkedNone(v: Vol, parent: nat, flags: Byte, size: nat)
    requires VolumeOk(v) && Fits(LayoutOf(v), parent, flags, size)
    ensures Marked(v, v, 0) && v.top < SECTOR && v.main.blockSize == 1 && UsedBelow(Block(v.disk, BITMAP_BLOCK), v.top)
  {
  }

  lemma MarkedAll(v: Vol, u: Vol, parent: nat, flags: Byte, size: nat)
    requires VolumeOk(v) && Fits(LayoutOf(v), parent, flags, size) && Marked(v, u, size) && FirstEntryFindable(v)
    ensures VolumeOk(u) && LayoutOf(u) == LayoutOf(v).(top := v.top + size) && FirstEntryFindable(u)
    ensures Fits(LayoutOf(u), parent, flags, 0) && |u.chain| < TWO_64 && u.top < SECTOR
    ensures NextIndex(LayoutOf(u)) == NextIndex(LayoutOf(v)) && SameData(v, u)
  {
    hide Entries; hide LayoutOk; hide Valid; hide FirstEntryFindable; hide Fits; hide EntryCost; hide NextIndex; hide Full;
    hide SameData;
    FindableKept(v, u);
    MkdirNeeds(v, parent, flags, size);
    FitsReserved(LayoutOf(v), parent, flags, size);
    ReserveOk(LayoutOf(v), size);
  }

  lemma FindableKept(v: Vol, u: Vol)
    requires VolumeOk(v) && FirstEntryFindable(v) && u.chain == v.chain && SameData(v, u)
    ensures FirstEntryFindable(u)
  {
    hide DecodeEntry; hide Block; hide InUse; hide Linked; hide LayoutOk; hide UsedBelow; hide DecodeMain;
    assert DataBlock(u.chain, 0);
  }

  /** Once FindFreeEntry has run, GemFS_mkdir finds the same entry and does the same. */
  lemma FoundFreeOk(u: Vol, u1: Vol, free: nat, parent: nat, flags: Byte, name: Name)
    requires VolumeOk(u) && FoundFree(u, u1, free) && Fits(LayoutOf(u), parent, flags, 0) && FirstEntryFindable(u)
    ensures VolumeOk(u1) && FirstEntryFindable(u1) && Fits(LayoutOf(u1), parent, flags, 0) && SameData(u, u1)
    ensures free == NextIndex(LayoutOf(u)) == NextIndex(LayoutOf(u1))
    ensures GemfsLayout.Mkdir(LayoutOf(u1), parent, flags, name) == GemfsLayout.Mkdir(LayoutOf(u), parent, flags, name)
  {
    hide Entries; hide LayoutOk; hide IsDir; hide InUse; hide EntryOf; hide GemfsLayout.Mkdir; hide DecodeEntry; hide Block;
    FreeIsNext(u, u1, free);
    if free == |u.chain| {
      ExtendedOk(u, u1, parent, flags, name);
    }
  }

  lemma ExtendedOk(u: Vol, u1: Vol, parent: nat, flags: Byte, name: Name)
    requires VolumeOk(u) && Full(LayoutOf(u)) && Fits(LayoutOf(u), parent, flags, 0) && Extended(u, u1, |u.chain| + 1)
    ensures VolumeOk(u1) && Fits(LayoutOf(u1), parent, flags, 0) && SameData(u, u1) && |u1.chain| == |u.chain| + 1
    ensures NextIndex(LayoutOf(u)) == NextIndex(LayoutOf(u1)) && |u.chain| > 0
    ensures GemfsLayout.Mkdir(LayoutOf(u1), parent, flags, name) == GemfsLayout.Mkdir(LayoutOf(u), parent, flags, name)
  {
    hide LayoutOk; hide IsDir; hide InUse; hide EntryOf; hide GemfsLayout.Mkdir; hide Block; hide Valid; hide Entries;
    EntriesExtended(u, u1);
    var e :| !InUse(e) && Entries(u1) == Entries(u) + [e];
    var t := LayoutOf(u);
    assert LayoutOf(u1) == WithSpare(t, e);
    SpareOk(t, e);
    SpareMkdir(t, e, parent, flags, name);
    SpareNotEmpty(t);
  }

  lemma SpareNotEmpty(t: Layout)
    requires LayoutOk(t)
    ensures |t.chain| > 0
  {
  }

  lemma MadeReachable(u1: Vol, u2: Vol, free: nat, parent: nat, flags: Byte, name: Name)
    requires VolumeOk(u1) && VolumeOk(u2) && Fits(LayoutOf(u1), parent, flags, 0) && free == NextIndex(LayoutOf(u1))
    requires LayoutOf(u2) == GemfsLayout.Mkdir(LayoutOf(u1), parent, flags, name)
    ensures Valid(u2) && free < |u2.chain| && |u2.chain| > 1 && MainOk(u2.main)
    ensures forall k :: 0 <= k < |u2.chain| ==> Reachable(u2, k)
  {
    hide IsDir; hide InUse; hide EntryOf; hide DirectoryOk; hide Valid; hide ExtentsOk; hide Reachable;
    ValidReachable(u2);
  }

  /** The new file's entry, written last. */
  lemma CreateFileDone(t: Layout, made: Layout, u2: Vol, u3: Vol, parent: nat, flags: Byte, name: Name, size: nat, e: Entry)
    requires LayoutOk(t) && Fits(t, parent, flags, size) && flags / 16 % 2 == 0
    requires Fits(t.(top := t.top + size), parent, flags, 0)
    requires made == GemfsLayout.Mkdir(t.(top := t.top + size), parent, flags, name) == LayoutOf(u2)
    requires NextIndex(t) < |u2.chain| && e == EntryOf(u2, NextIndex(t)).(start := t.top, size := size)
    requires Wrote(u2, u3, NextIndex(t), e)
    ensures VolumeOk(u3) && LayoutOf(u3) == GemfsLayout.CreateFile(t, parent, flags, name, size) && SameData(u2, u3)
    ensures u3.chain == u2.chain
  {
    hide IsDir; hide InUse; hide EntryOf; hide LayoutOk; hide GemfsLayout.Mkdir; hide SameData; hide Fits; hide Valid;
    hide Entries; hide NextIndex;
    WroteExtent(u2, u3, NextIndex(t), t.top, size, e);
    CreateFileLayoutOk(t, parent, flags, name, size);
  }

  lemma CreateFileLayoutOk(t: Layout, parent: nat, flags: Byte, name: Name, size: nat)
    requires LayoutOk(t) && Fits(t, parent, flags, size) && flags / 16 % 2 == 0
    ensures LayoutOk(GemfsLayout.CreateFile(t, parent, flags, name, size))
  {
    CreateFileOk(t, parent, flags, name, size);
  }

  lemma WroteExtent(u2: Vol, u3: Vol, k: nat, start: U64, size: U64, e: Entry)
    requires k < |u2.chain| && e == EntryOf(u2, k).(start := start, size := size) && Wrote(u2, u3, k, e)
    ensures k < |Entries(u2)|
    ensures LayoutOf(u3) == LayoutOf(u2).(es := Entries(u2)[k := Entries(u2)[k].(start := start, size := size)])
  {
    hide EntryOf; hide Valid; hide SameData;
    assert Entries(u2)[k] == Meta(EntryOf(u2, k));
  }

  lemma EntryInUse(v: Vol, k: nat)
    requires VolumeOk(v) && k < |v.chain| && InUse(Entries(v)[k])
    ensures Reachable(v, k) && |Entries(v)| == |v.chain|
    ensures IsDir(Entries(v)[k]) == IsDir(EntryOf(v, k)) && IsFile(Entries(v), k) == !IsDir(EntryOf(v, k))
    ensures |v.chain| == 1 ==> k == 0
  {
    hide EntryOf; hide DirectoryOk; hide Linked; hide ExtentsOk; hide UsedBelow; hide DecodeMain;
    assert Entries(v)[k] == Meta(EntryOf(v, k));
  }

  lemma WrittenReachable(v: Vol, w: Vol, k: nat)
    requires VolumeOk(v) && Reachable(v, k) && VolumeOk(w) && w.chain == v.chain && k < |v.chain|
    ensures Reachable(w, k) && MainOk(w.main)
  {
    hide EntryOf; hide LayoutOk; hide UsedBelow; hide DecodeMain;
  }

  /** Writing back an entry as it is changes nothing that counts. */
  lemma RewrittenSame(v: Vol, w: Vol, u: Vol, k: nat, e: Entry)
    requires VolumeOk(w) && k < |w.chain| && e == EntryOf(w, k) && Wrote(w, u, k, e) && SameFiles(v, w, Some(k))
    requires Entries(w) == Entries(v) && IsFile(Entries(w), k)
    ensures VolumeOk(u) && LayoutOf(u) == LayoutOf(w) && Contents(u, k) == Contents(w, k) && SameFiles(v, u, Some(k))
  {
    hide EntryOf; hide Valid; hide LayoutOk; hide SameData; hide Contents; hide InUse; hide IsDir;
    assert Entries(w)[k] == Meta(e);
    assert Entries(u) == Entries(w);
    hide Entries; hide IsFile;
    FilesKept(w, u);
    assert SameFile(w, u, k);
    forall j: nat | IsFile(Entries(v), j) && Some(k) != Some(j) ensures SameFile(v, u, j) {
      assert SameFile(v, w, j) && SameFile(w, u, j);
    }
  }

  lemma FormattedVolume(v: Vol, bitmap: Sector, used: nat)
    requires v.chain == [MAIN_BLOCK] && v.top == used && TailUsedBelow(bitmap, used)
    requires v.main == Main([71, 69, 77, 72], 1, ROOT) && Block(v.disk, MAIN_BLOCK) == EncodeMain(v.main)
    requires Block(v.disk, BITMAP_BLOCK) == MarkRange(bitmap, 0, 6)
    ensures VolumeOk(v) && LayoutOf(v) == FORMATTED.(top := used)
  {
    assert Entries(v) == [ROOT];
    FormatMarksSix(bitmap);
    TailAndHead(bitmap, MarkRange(bitmap, 0, 6), used);
    MainRoundTrip(v.main);
    hide UsedBelow; hide MarkRange; hide EncodeMain; hide DecodeMain; hide LayoutOk;
    FormattedOk();
    ReserveOk(FORMATTED, used - FIRST_FREE);
  }

  lemma FetchedOk(v: Vol, v': Vol, index: nat)
    requires Reachable(v, index) && Fetched(v, v', index)
    ensures MainOk(v'.main) && index < |v'.chain|
  {
  }

  class Volume {
    var disk: Disk
    var main: Main
    var fbb: Buffer
    const sectorCount: nat
    ghost var chain: seq<nat>
    ghost var top: nat

    ghost function State(): Vol
      reads this
    {
      Vol(disk, main, chain, top)
    }

    constructor (disk: Disk, main: Main, sectorCount: nat, ghost chain: seq<nat>, ghost top: nat)
      ensures State() == Vol(disk, main, chain, top)
    {
      this.disk, this.main, this.sectorCount, this.chain, this.top := disk, main, sectorCount, chain, top;
      fbb := ZeroBytes(FBB_BYTES);
    }

    // -------------------------------------------------------------------------------
    // The bitmap
    // -------------------------------------------------------------------------------

    /** GemFS_FBB_GetBlock.  The byte index is not reduced to the sector read: for a block past the
        first sector's the answer comes from what the buffer held there before. */
    method FbbGetBlock(b: nat) returns (used: bool)
      requires main.blockSize == 1 && b < FBB_BYTES
      modifies this`fbb
      ensures used == if b < SECTOR then Used(Block(disk, BITMAP_BLOCK), b) else BitSet(old(fbb)[b], b % 8)
    {
      var bs := main.blockSize;
      var sector, offset, bit := b / (bs * 512), b / bs, b % 8;
      fbb := Block(disk, sector + BITMAP_BLOCK) + fbb[SECTOR..];
      used := BitSet(fbb[offset], bit);
    }

    /** GemFS_FBB_SetBlock.  A block past the first sector's is marked in the buffer, and the disk
        stays as it was. */
    method FbbSetBlock(b: nat)
      requires main.blockSize == 1 && b < FBB_BYTES
      modifies this`fbb, this`disk
      ensures b < SECTOR ==> disk == old(disk)[BITMAP_BLOCK := MarkUsed(Block(old(disk), BITMAP_BLOCK), b)]
      ensures b >= SECTOR ==> forall x: nat :: Block(disk, x) == Block(old(disk), x)
    {
      var bs := main.blockSize;
      var sector, offset, bit := b / (bs * 512), b / bs, b % 8;
      fbb := Block(disk, sector + BITMAP_BLOCK) + fbb[SECTOR..];
      fbb := fbb[offset := SetBit(fbb[offset], bit)];
      assert fbb[..SECTOR] == if b < SECTOR then MarkUsed(Block(disk, BITMAP_BLOCK), b) else Block(disk, sector + BITMAP_BLOCK);
      disk := disk[sector + BITMAP_BLOCK := fbb[..SECTOR]];
    }

    /** GemFS_FindFreeBlock */
    method FindFreeBlock() returns (b: nat)
      requires main.blockSize == 1 && UsedBelow(Block(disk, BITMAP_BLOCK), top)
      modifies this`fbb
      ensures b == if top < SECTOR then top else sectorCount + 1
    {
      var size := sectorCount / main.blockSize;
      for i := 0 to 0x200
        invariant i <= top && main.blockSize == 1
      {
        var used := FbbGetBlock(i);
        if !used {
          return i;
        }
      }
      return size + 1;
    }

    // -------------------------------------------------------------------------------
    // Entries
    // -------------------------------------------------------------------------------

    /** GemFS_ReadMainEntry */
    method ReadMainEntry() returns (m: Main)
      modifies this`main
      ensures m == DecodeMain(Block(disk, MAIN_BLOCK)) && main == m
    {
      main := DecodeMain(Block(disk, MAIN_BLOCK));
      m := main;
    }

    /** GemFS_GetEntryBlock: the block of an entry, which is created, with all before it, when
        the chain is too short.  Only the creation of entry 1 comes out with another block. */
    method GetEntryBlock(index: nat) returns (block: nat)
      requires Reachable(State(), index)
      modifies this
      ensures Fetched(old(State()), State(), index)
      ensures |old(chain)| > 1 || index == 0 ==> block == chain[index]
      ensures |old(chain)| == 1 && index == 1 ==> block == Stray(disk)
      decreases MissingEntries(State(), index), 3
    {
      hide Block; hide DecodeEntry; hide Walked; hide Core; hide Linked; hide Valid; hide Extended; hide Fetched;
      var entry := main.entry;
      var last := entry.next;
      ghost var v0 := State();
      if index == 0 {
        assert Core(v0);
        WalkStart(v0, 0);
        WalkEnds(v0, v0, 0);
        return MAIN_BLOCK;
      }
      WalkStart(v0, index);
      for i := 1 to index + 1
        invariant Walked(v0, State(), index, i)
        invariant i == 1 ==> entry == main.entry && last == entry.next && State() == v0
        invariant i > 1 ==> i <= |chain|
        invariant i > 1 && |v0.chain| > 1 ==> entry == EntryOf(State(), i - 1) && last == chain[i - 1]
        invariant i > 1 && |v0.chain| == 1 ==> last == Stray(disk)
      {
        ghost var v := State();
        WalkOn(v0, v, index, i);
        assert entry == EntryOf(v, i - 1);
        if entry.next == 0 {
          CreateEntry(i, 0);
          WalkMade(v0, v, State(), index, i);
          entry := DecodeEntry(Block(disk, last));
        }
        last := entry.next;
        entry := DecodeEntry(Block(disk, last));
      }
      WalkEnds(v0, State(), index);
      return last;
    }

    /** GemFS_CreateEntry: the first free block becomes the last link of the chain. */
    method CreateEntry(index: nat, flags: Byte)
      requires Valid(State()) && index == |chain| && index < TWO_64 && top < SECTOR && flags == 0
      modifies this
      ensures Extended(old(State()), State(), index + 1)
      decreases 1, 2
    {
      hide Block; hide UsedBelow; hide Taken; hide WithEntry; hide EntryOf; hide Linked; hide Terminated; hide Extended;
      hide DecodeMain;
      ghost var v := State();
      CreateSteps(v);
      var block := FindFreeBlock();
      FbbSetBlock(block);
      top := top + 1;
      TakenIs(v, State());
      var entry: Entry := *;
      entry := entry.(index := index, flags := flags, next := 0);
      var before := ReadEntry(index - 1);
      WriteEntry(index - 1, before.(next := block));
      assert State() == Linking(v);
      chain := chain + [block];
      assert State() == Grown(v);
      WriteEntry(index, entry);
      GrownExtends(v, entry);
    }

    /** GemFS_ReadEntry */
    method ReadEntry(index: nat) returns (e: Entry)
      requires Reachable(State(), index)
      modifies this
      ensures Fetched(old(State()), State(), index)
      ensures |old(chain)| > 1 || index == 0 ==> e == EntryOf(State(), index)
      ensures |old(chain)| == 1 && index == 1 ==> e == DecodeEntry(Block(disk, Stray(disk)))
      decreases MissingEntries(State(), index), 4
    {
      var block := GetEntryBlock(index);
      if index == 0 {
        var m := ReadMainEntry();
        return m.entry;
      }
      return DecodeEntry(Block(disk, block));
    }

    /** GemFS_WriteEntry.  Like the read, the very first creation of entry 1 goes astray. */
    method WriteEntry(index: nat, e: Entry)
      requires Reachable(State(), index)
      modifies this
      ensures index < |old(chain)| ==> State() == WithEntry(old(State()), index, e)
      ensures index >= |old(chain)| > 1 ==>
                exists v :: Extended(old(State()), v, index + 1) && State() == WithEntry(v, index, e)
      ensures index >= |old(chain)| == 1 ==>
                exists v :: Extended(old(State()), v, 2) && State() == v.(disk := v.disk[Stray(v.disk) := EncodeEntry(e)])
      decreases MissingEntries(State(), index), 4
    {
      hide Extended; hide DecodeEntry; hide EncodeEntry; hide EncodeMain; hide Linked; hide ChainOk; hide UsedBelow; hide Block;
      hide DecodeMain; hide Terminated; hide EntryOf;
      var block := GetEntryBlock(index);
      ghost var v := State();
      FetchedOk(old(State()), v, index);
      if index == 0 {
        main := main.(entry := e);
        disk := disk[MAIN_BLOCK := EncodeMain(main)];
      } else {
        disk := disk[block := EncodeEntry(e)];
      }
      assert |old(chain)| > 1 || index == 0 ==> State() == WithEntry(v, index, e);
    }

    // -------------------------------------------------------------------------------
    // Directories and files
    // -------------------------------------------------------------------------------

    /** GemFS_FindFreeEntry */
    method FindFreeEntry() returns (free: nat)
      requires Valid(State()) && FirstEntryFindable(State()) && |chain| < TWO_64
      requires top < SECTOR || exists k :: 0 <= k < |chain| && !InUse(EntryOf(State(), k))
      modifies this
      ensures FoundFree(old(State()), State(), free)
    {
      hide EntryOf; hide InUse; hide Extended; hide Core; hide Linked; hide DecodeEntry; hide Block;
      ghost var v := State();
      var entry := main.entry;
      var i: nat := 1;
      RootFirst(v);
      while InUse(entry)
        invariant 1 <= i <= |v.chain| + 1
        invariant forall k :: 0 <= k < i - 1 ==> k < |v.chain| && InUse(EntryOf(v, k))
        invariant if i - 1 < |v.chain| then State() == v && entry == EntryOf(v, i - 1)
                  else Extended(v, State(), i) && !InUse(entry)
        decreases |v.chain| + 1 - i
      {
        entry := ReadEntry(i);
        if i == |v.chain| {
          FreshIsUnused(v, State(), entry);
        }
        i := i + 1;
      }
      return i - 1;
    }

    /** The sibling loop of GemFS_mkdir: puts the new entry behind the last child. */
    method HookBehindLast(parent: nat, p: Entry, free: U64, ghost flags: Byte)
      requires Valid(State()) && CanAdd(Entries(State()), parent, flags) && |chain| > 1
      requires p == EntryOf(State(), parent) && p.start != 0
      requires forall k :: 0 <= k < |chain| ==> Reachable(State(), k)
      modifies this
      ensures var v := old(State()); var tail := LastSibling(Entries(v), p.start);
              tail < |v.chain| && Wrote(v, State(), tail, EntryOf(v, tail).(sibling := free))
    {
      hide Valid; hide Entries; hide EntryOf; hide CanAdd; hide Kids; hide LastSibling; hide Reachable; hide Wrote;
      hide Extended; hide WithEntry;
      ghost var v := State();
      MkdirWalkStart(v, parent, flags, p);
      var cur := ReadEntry(p.start);
      ghost var c: nat := p.start;
      while cur.sibling != 0
        invariant State() == v && c in Kids(Entries(v), parent) && c < |chain| && cur == EntryOf(v, c)
        invariant LastSibling(Entries(v), p.start) == LastSibling(Entries(v), c)
        decreases |chain| - c
      {
        MkdirWalk(v, parent, flags, c, cur);
        c := cur.sibling;
        cur := ReadEntry(cur.sibling);
      }
      MkdirWalk(v, parent, flags, c, cur);
      cur := cur.(sibling := free);
      WithEntryWrote(v, c, cur);
      WriteEntry(cur.index, cur);
    }

    /** GemFS_mkdir.  One block is marked for the new directory and never referred to. */
    method Mkdir(name: seq<Byte>, flags: Byte, parent: nat) returns (free: nat)
      requires VolumeOk(State()) && FirstEntryFindable(State()) && |name| <= NAME_BYTES
      requires Fits(LayoutOf(State()), parent, flags, 0)
      modifies this
      ensures VolumeOk(State()) && SameData(old(State()), State()) && SameFiles(old(State()), State(), None)
      ensures free == NextIndex(old(LayoutOf(State())))
      ensures LayoutOf(State()) == GemfsLayout.Mkdir(old(LayoutOf(State())), parent, flags, Padded(name)) && |chain| > 1
    {
      hide Valid; hide Entries; hide EntryOf; hide CanAdd; hide Reachable; hide Extended; hide Fits; hide Padded;
      hide FoundFree; hide SameData; hide Taken; hide WithEntry; hide UsedBelow; hide Block; hide LayoutOk; hide Prepared;
      hide FirstEntryFindable; hide Wrote; hide LastSibling; hide NextIndex; hide AddChild;
      ghost var v := State();
      MkdirNeeds(v, parent, flags, 0);
      free := FindFreeEntry();
      ghost var v1 := State();
      FoundFreePrepared(v, v1, free, parent, flags);
      MkdirMarks(v, v1, free, parent, flags);
      var block := FindFreeBlock();
      FbbSetBlock(block);
      top := top + 1;
      TakenIs(v1, State());
      ghost var v2 := State();
      var newDir := ReadEntry(free);
      newDir := Entry(0, 0, free, parent, 0, 0, flags, 0, NO_NAME);
      var p := ReadEntry(parent);
      if p.start != 0 {
        HookBehindLast(parent, p, free, flags);
      }
      ghost var a := State();
      AfterHook(v2, a, parent, p, free);
      newDir := newDir.(name := Padded(name));
      WithEntryWrote(a, free, newDir);
      WriteEntry(free, newDir);
      ghost var b := State();
      AfterNew(v2, a, b, parent, free, newDir);
      ghost var last := if p.start != 0 then EntryOf(v2, LastSibling(Entries(v2), p.start)) else p;
      if p.start == 0 {
        p := p.(start := free);
      }
      WithEntryWrote(b, parent, p);
      WriteEntry(parent, p);
      MkdirWrote(v2, a, b, State(), parent, flags, Padded(name), EntryOf(v2, parent), last);
      MkdirDone(v, v1, v2, State(), parent, flags, Padded(name));
      MkdirSameFiles(v, State(), parent, flags, Padded(name));
    }

    /** GemFS_CreateFile.  Only the first block is looked for; the rest are taken to be free. */
    method CreateFile(name: seq<Byte>, flags: Byte, parent: nat, size: nat) returns (free: nat)
      requires VolumeOk(State()) && FirstEntryFindable(State()) && |name| <= NAME_BYTES
      requires Fits(LayoutOf(State()), parent, flags, size) && flags / 16 % 2 == 0
      modifies this
      ensures VolumeOk(State()) && SameData(old(State()), State()) && SameFiles(old(State()), State(), None)
      ensures free == NextIndex(old(LayoutOf(State())))
      ensures LayoutOf(State()) == GemfsLayout.CreateFile(old(LayoutOf(State())), parent, flags, Padded(name), size)
      ensures |chain| > 1
    {
      hide Entries; hide EntryOf; hide Reachable; hide Extended; hide Fits; hide Padded; hide Taken; hide WithEntry;
      hide UsedBelow; hide Block; hide LayoutOk; hide Wrote; hide NextIndex; hide Core; hide Linked; hide Terminated;
      hide FoundFree; hide SameData; hide FirstEntryFindable; hide Prepared; hide Entries; hide Marked; hide Valid;
      hide GemfsLayout.Mkdir; hide GemfsLayout.CreateFile;
      ghost var v := State();
      MarkedNone(v, parent, flags, size);
      var freeBlock := FindFreeBlock();
      for i := 0 to size
        invariant Marked(v, State(), i)
      {
        ghost var u := State();
        MarkedStep(v, u, i, parent, flags, size);
        FbbSetBlock(i + freeBlock);
        top := top + 1;
        TakenIs(u, State());
      }
      ghost var u := State();
      MarkedAll(v, u, parent, flags, size);
      free := FindFreeEntry();
      ghost var u1 := State();
      FoundFreeOk(u, u1, free, parent, flags, Padded(name));
      var _ := Mkdir(name, flags, parent);
      ghost var u2 := State();
      MadeReachable(u1, u2, free, parent, flags, Padded(name));
      var entry: Entry := BLANK;
      entry := ReadEntry(free);
      entry := entry.(start := freeBlock, size := size);
      WithEntryWrote(u2, free, entry);
      WriteEntry(free, entry);
      SameDataTransitive(v, u, u1);
      SameDataTransitive(v, u1, u2);
      CreateFileDone(LayoutOf(v), LayoutOf(u2), u2, State(), parent, flags, Padded(name), size, entry);
      SameDataTransitive(v, u2, State());
      CreateFileSameFiles(v, State(), parent, flags, Padded(name), size);
    }

    /** The first part of GemFS_FormatPartition.  It clears block 2, not the bitmap's sector: the
        marks there past the reserved blocks stay. */
    method Format(ghost used: nat)
      requires TailUsedBelow(Block(disk, BITMAP_BLOCK), used)
      modifies this
      ensures VolumeOk(State()) && LayoutOf(State()) == FORMATTED.(top := used)
      ensures main == Main([71, 69, 77, 72], 1, Entry(0, 0, 0, 0, 0, 0, 23, 0, [82, 79, 79, 84] + ZeroBytes(124)))
      ensures forall b :: b != MAIN_BLOCK && b != 2 && b != BITMAP_BLOCK ==> Block(disk, b) == Block(old(disk), b)
    {
      hide MarkUsed; hide LayoutOk; hide EncodeMain; hide TailUsedBelow;
      ghost var d := disk;
      main := Main([71, 69, 77, 72], 1, ROOT);
      disk := disk[MAIN_BLOCK := EncodeMain(main)];
      disk := disk[2 := ZeroBytes(SECTOR)];
      ghost var d1 := disk;
      for i := 0 to 6
        invariant main == Main([71, 69, 77, 72], 1, ROOT)
        invariant Block(disk, BITMAP_BLOCK) == MarkRange(Block(d, BITMAP_BLOCK), 0, i)
        invariant forall b :: b != BITMAP_BLOCK ==> Block(disk, b) == Block(d1, b)
      {
        MarkRangeAppend(Block(d, BITMAP_BLOCK), 0, i);
        FbbSetBlock(i);
      }
      chain, top := [MAIN_BLOCK], used;
      FormattedVolume(State(), Block(d, BITMAP_BLOCK), used);
    }

    /** GemFS_WriteFile.  The buffer is as long as the file, whatever length the caller names. */
    method WriteFile(buffer: seq<Sector>, index: nat)
      requires VolumeOk(State()) && index < |chain| && InUse(Entries(State())[index])
      requires EntryOf(State(), index).size <= |buffer|
      modifies this
      ensures VolumeOk(State()) && LayoutOf(State()) == old(LayoutOf(State()))
      ensures if IsDir(old(Entries(State()))[index]) then State() == old(State())
              else Contents(State(), index) == buffer[..old(EntryOf(State(), index)).size]
                   && SameFiles(old(State()), State(), Some(index))
    {
      hide Entries; hide EntryOf; hide Valid; hide Reachable; hide LayoutOk; hide InUse; hide Block; hide WithEntry; hide Wrote;
      hide Extended; hide WriteBlocks; hide Sectors; hide SameFiles; hide Contents;
      ghost var v := State();
      EntryInUse(v, index);
      var entry := ReadEntry(index);
      if IsDir(entry) {
        return;
      }
      ghost var w := Written(v, index, buffer);
      WrittenSpec(v, index, buffer);
      WrittenReachable(v, w, index);
      disk := WriteBlocks(disk, entry.start, buffer[..entry.size]);
      assert State() == w;
      WithEntryWrote(w, index, entry);
      WriteEntry(index, entry);
      RewrittenSame(v, w, State(), index, entry);
    }

    /** GemFS_ReadFile: nothing for a directory. */
    method ReadFile(index: nat, blocks: nat) returns (r: Option<seq<Sector>>)
      requires VolumeOk(State()) && index < |chain| && InUse(Entries(State())[index])
      modifies this
      ensures State() == old(State())
      ensures r == if IsDir(Entries(State())[index]) then None
                   else Some(Sectors(disk, EntryOf(State(), index).start, blocks))
      ensures IsFile(Entries(State()), index) && blocks == EntryOf(State(), index).size ==>
                r == Some(Contents(State(), index))
    {
      hide Entries; hide EntryOf; hide Valid; hide Reachable; hide LayoutOk; hide InUse; hide Extended; hide Sectors;
      EntryInUse(State(), index);
      var entry := ReadEntry(index);
      if IsDir(entry) {
        return None;
      }
      return Some(Sectors(disk, entry.start, blocks));
    }
  }
}
