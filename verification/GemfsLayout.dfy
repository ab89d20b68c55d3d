/**
  What GemFS_mkdir and GemFS_CreateFile do to a volume's layout: the entries, the blocks they
  occupy and the number of blocks in use.  Every operation keeps the directory tree and keeps
  file extents apart from each other and from the blocks of entries.
 */
module GemfsLayout {
  import opened Registers
  import opened ByteMemory
  import opened GemfsCodec
  import opened GemfsTree

  const MAIN_BLOCK: nat := 1
  const BITMAP_BLOCK: nat := 4
  /** The first block that formatting leaves free. */
  const FIRST_FREE: nat := 6

  /** The entries, without their chain links, the block of each, and the blocks in use. */
  datatype Layout = Layout(es: seq<Entry>, chain: seq<nat>, top: nat)

  /** Entries occupy pairwise distinct blocks, all of them in use. */
  ghost predicate ChainOk(chain: seq<nat>, top: nat) {
    && 1 <= |chain| && chain[0] == MAIN_BLOCK
    && (forall k :: 1 <= k < |chain| ==> FIRST_FREE <= chain[k] < top)
    && forall j, k :: 0 <= j < k < |chain| ==> chain[j] != chain[k]
  }

  /** A block that holds neither an entry nor the volume's own records. */
  predicate DataBlock(chain: seq<nat>, b: nat) {
    b != MAIN_BLOCK && b != BITMAP_BLOCK && b !in chain
  }

  predicate IsFile(es: seq<Entry>, k: nat) {
    k < |es| && InUse(es[k]) && !IsDir(es[k])
  }

  /** Block b belongs to file k. */
  predicate InExtent(es: seq<Entry>, k: nat, b: nat) {
    IsFile(es, k) && es[k].start <= b < es[k].start + es[k].size
  }

  /** The blocks that the allocator may still hand out; the bitmap is one sector. */
  predicate Free(top: nat, b: nat) {
    top <= b < SECTOR
  }

  /** No file block is free, holds an entry or a record of the volume, or is in two files. */
  ghost predicate ExtentsOk(t: Layout) {
    && (forall k, b :: InExtent(t.es, k, b) ==> DataBlock(t.chain, b) && !Free(t.top, b))
    && forall j, k, b :: InExtent(t.es, j, b) && InExtent(t.es, k, b) ==> j == k
  }

  ghost predicate LayoutOk(t: Layout) {
    && ChainOk(t.chain, t.top) && FIRST_FREE <= t.top <= SECTOR && |t.es| == |t.chain|
    && TreeOk(t.es) && ExtentsOk(t)
  }

  // ---------------------------------------------------------------------------------
  // Operations
  // ---------------------------------------------------------------------------------

  /** No entry is unused: the next one has to be created. */
  predicate Full(t: Layout) {
    t.es != [] && InUse(t.es[|t.es| - 1])
  }

  /** The blocks that one more entry takes: one when it has to be created, and one that is
      marked for the new directory but never referred to. */
  function EntryCost(t: Layout): nat {
    if Full(t) then 2 else 1
  }

  /** The index that the next new entry gets. */
  function NextIndex(t: Layout): nat {
    if Full(t) then |t.es| else if t.es == [] then 0 else |t.es| - 1
  }

  function WithFree(t: Layout): seq<Entry> {
    if Full(t) then t.es + [BLANK] else t.es
  }

  predicate Fits(t: Layout, parent: nat, flags: Byte, size: nat) {
    && parent < NextIndex(t) && parent < |t.es| && IsDir(t.es[parent]) && flags % 2 == 1
    && NextIndex(t) + 1 < TWO_64 && t.top + size + EntryCost(t) <= SECTOR
  }

  function Mkdir(t: Layout, parent: nat, flags: Byte, name: Name): Layout
    requires Fits(t, parent, flags, 0)
  {
    Layout(AddChild(WithFree(t), parent, flags, name),
           if Full(t) then t.chain + [t.top] else t.chain,
           t.top + EntryCost(t))
  }

  /** The file's blocks are the first `size` free ones. */
  function CreateFile(t: Layout, parent: nat, flags: Byte, name: Name, size: nat): Layout
    requires Fits(t, parent, flags, size)
  {
    var made := Mkdir(t.(top := t.top + size), parent, flags, name);
    var index := NextIndex(t);
    made.(es := made.es[index := made.es[index].(start := t.top, size := size)])
  }

  // ---------------------------------------------------------------------------------
  // A free last entry
  // ---------------------------------------------------------------------------------

  lemma {:induction false} KidsPrefix(es: seq<Entry>, e: Entry, d: nat, n: nat)
    requires n <= |es|
    ensures KidsBelow(es + [e], d, n) == KidsBelow(es, d, n)
    decreases n
  {
    if n > 1 {
      KidsPrefix(es, e, d, n - 1);
      assert (es + [e])[n - 1] == es[n - 1];
    }
  }

  lemma KidsWithFree(es: seq<Entry>, e: Entry, d: nat)
    requires es != [] && !InUse(e)
    ensures Kids(es + [e], d) == Kids(es, d)
  {
    KidsPrefix(es, e, d, |es|);
    assert (es + [e])[|es|] == e;
  }

  /** A chain that has grown by an unused entry is still a tree. */
  lemma FreeEntryKeepsTree(es: seq<Entry>, e: Entry)
    requires TreeOk(es) && InUse(es[|es| - 1]) && !InUse(e) && |es| + 1 < TWO_64
    ensures TreeOk(es + [e])
  {
    hide KidsBelow; hide InUse; hide IsDir; hide Kids; hide Spells;
    var r := es + [e];
    forall d | 0 <= d < |r| && InUse(r[d]) && IsDir(r[d]) ensures DirectoryOk(r, d) {
      KidsWithFree(es, e, d);
      KidsInRange(es, d);
      SpellsKept(es, r, d, Kids(es, d));
    }
  }

  lemma KidsInRange(es: seq<Entry>, d: nat)
    ensures forall k :: k in Kids(es, d) ==> 1 <= k < |es|
  {
    KidsSpec(es, d, |es|);
  }

  /** What the free entry held before does not matter. */
  lemma FreeEntryIrrelevant(es: seq<Entry>, e: Entry, parent: nat, flags: Byte, name: Name)
    requires TreeOk(es) && InUse(es[|es| - 1]) && !InUse(e) && |es| + 1 < TWO_64
    requires parent < |es| && IsDir(es[parent]) && flags % 2 == 1
    ensures AddChild(es + [e], parent, flags, name) == AddChild(es + [BLANK], parent, flags, name)
  {
    hide TreeOk; hide Kids; hide AddChild; hide IsDir; hide CanAdd;
    assert !InUse(BLANK);
    hide InUse;
    CanAddFree(es, e, parent, flags);
    CanAddFree(es, BLANK, parent, flags);
    var e1, e2 := es + [e], es + [BLANK];
    var r1, r2 := AddChild(e1, parent, flags, name), AddChild(e2, parent, flags, name);
    KidsWithFree(es, e, parent);
    KidsWithFree(es, BLANK, parent);
    AddChildFields(e1, parent, flags, name);
    AddChildFields(e2, parent, flags, name);
    forall k | 0 <= k < |r1| ensures r1[k] == r2[k] {
      assert k < |es| ==> e1[k] == e2[k];
    }
  }

  lemma CanAddFree(es: seq<Entry>, e: Entry, parent: nat, flags: Byte)
    requires TreeOk(es) && InUse(es[|es| - 1]) && !InUse(e) && |es| + 1 < TWO_64
    requires parent < |es| && IsDir(es[parent]) && flags % 2 == 1
    ensures CanAdd(es + [e], parent, flags)
  {
    hide TreeOk; hide InUse; hide IsDir;
    FreeEntryKeepsTree(es, e);
  }

  // ---------------------------------------------------------------------------------
  // What the operations keep
  // ---------------------------------------------------------------------------------

  lemma WithFreeCanAdd(t: Layout, parent: nat, flags: Byte, size: nat)
    requires LayoutOk(t) && Fits(t, parent, flags, size)
    ensures var es := WithFree(t);
            && CanAdd(es, parent, flags) && |es| == NextIndex(t) + 1
            && (forall d :: Kids(es, d) == Kids(t.es, d))
            && (forall k :: 0 <= k < NextIndex(t) ==> es[k] == t.es[k])
  {
    hide TreeOk; hide InUse; hide IsDir; hide KidsBelow; hide Kids; hide ChainOk; hide ExtentsOk;
    if Full(t) {
      CanAddBlank(t.es, parent, flags);
      forall d ensures Kids(WithFree(t), d) == Kids(t.es, d) {
        KidsWithFree(t.es, BLANK, d);
      }
    }
  }

  lemma CanAddBlank(es: seq<Entry>, parent: nat, flags: Byte)
    requires TreeOk(es) && InUse(es[|es| - 1]) && |es| + 1 < TWO_64
    requires parent < |es| && IsDir(es[parent]) && flags % 2 == 1
    ensures CanAdd(es + [BLANK], parent, flags) && !InUse(BLANK)
  {
    CanAddFree(es, BLANK, parent, flags);
  }

  /** An entry but for its links to children and siblings. */
  predicate OnlyLinksDiffer(e: Entry, e': Entry) {
    e'.(start := 0, sibling := 0) == e.(start := 0, sibling := 0)
  }

  lemma AddChildKeeps(es: seq<Entry>, parent: nat, flags: Byte, name: Name)
    requires CanAdd(es, parent, flags)
    ensures var r := AddChild(es, parent, flags, name);
            && (forall k :: 0 <= k < |es| - 1 ==> OnlyLinksDiffer(es[k], r[k]))
            && (forall k :: 0 <= k < |es| - 1 && k != parent ==> r[k].start == es[k].start)
            && r[|es| - 1] == BLANK.(flags := flags, index := |es| - 1, parent := parent, name := name)
  {
    hide AddChild; hide Kids;
    AddChildFields(es, parent, flags, name);
    hide CanAdd;
  }

  /** The entries after GemFS_mkdir: a new one after all used ones, appended to its parent's
      list; nothing else in an entry changes but the one link that leads to it. */
  lemma MkdirEntries(t: Layout, parent: nat, flags: Byte, name: Name, size: nat)
    requires LayoutOk(t) && Fits(t, parent, flags, size)
    ensures var r := AddChild(WithFree(t), parent, flags, name); var free := NextIndex(t);
            && TreeOk(r) && |r| == free + 1 && InUse(r[free])
            && r[free] == BLANK.(flags := flags, index := free, parent := parent, name := name)
            && (forall d :: Kids(r, d) == if d == parent then Kids(t.es, d) + [free] else Kids(t.es, d))
            && (forall k :: 0 <= k < free ==> OnlyLinksDiffer(t.es[k], r[k]))
            && (forall k :: 0 <= k < free && k != parent ==> r[k].start == t.es[k].start)
  {
    hide AddChild; hide WithFree; hide TreeOk; hide InUse; hide IsDir; hide LayoutOk; hide CanAdd; hide Kids;
    hide OnlyLinksDiffer; hide NextIndex; hide Fits;
    WithFreeCanAdd(t, parent, flags, size);
    var es := WithFree(t);
    AddChildOk(es, parent, flags, name);
    AddChildKeeps(es, parent, flags, name);
  }

  /** ... so files keep their blocks, and a new entry has none. */
  lemma MkdirExtents(t: Layout, parent: nat, flags: Byte, name: Name, size: nat)
    requires LayoutOk(t) && Fits(t, parent, flags, size)
    ensures var r := AddChild(WithFree(t), parent, flags, name);
            forall k: nat, b: nat :: InExtent(r, k, b) <==> InExtent(t.es, k, b)
  {
    MkdirEntries(t, parent, flags, name, size);
    var r, free := AddChild(WithFree(t), parent, flags, name), NextIndex(t);
    assert free < |t.es| ==> !InUse(t.es[free]);
    hide WithFree; hide TreeOk; hide AddChild; hide Kids; hide InUse; hide IsDir; hide LayoutOk;
    forall k: nat, b: nat ensures InExtent(r, k, b) <==> InExtent(t.es, k, b) {
      if k < free {
        assert OnlyLinksDiffer(t.es[k], r[k]);
        SameUse(t.es[k], r[k]);
      }
    }
  }

  lemma SameUse(e: Entry, e': Entry)
    requires OnlyLinksDiffer(e, e')
    ensures InUse(e) == InUse(e') && IsDir(e) == IsDir(e') && e'.size == e.size
  {
    assert e'.(start := 0, sibling := 0).flags == e'.flags && e.(start := 0, sibling := 0).flags == e.flags;
  }

  lemma ChainGrows(chain: seq<nat>, top: nat, cost: nat)
    requires ChainOk(chain, top) && FIRST_FREE <= top
    ensures ChainOk(chain, top + cost) && (cost > 0 ==> ChainOk(chain + [top], top + cost))
  {
    var c := chain + [top];
    forall j, k | 0 <= j < k < |c| ensures c[j] != c[k] {
      assert j < |chain| && c[j] == chain[j];
    }
  }

  lemma MkdirOk(t: Layout, parent: nat, flags: Byte, name: Name)
    requires LayoutOk(t) && Fits(t, parent, flags, 0)
    ensures LayoutOk(Mkdir(t, parent, flags, name))
  {
    hide WithFree; hide TreeOk; hide AddChild; hide Kids; hide InExtent; hide ChainOk; hide IsDir; hide InUse;
    hide OnlyLinksDiffer;
    MkdirEntries(t, parent, flags, name, 0);
    MkdirExtents(t, parent, flags, name, 0);
    ChainGrows(t.chain, t.top, EntryCost(t));
    var r := Mkdir(t, parent, flags, name);
    assert ExtentsOk(r) by {
      FreeBlockIsApart(t, r);
    }
  }

  /** Taking free blocks for entries does not touch any file. */
  lemma FreeBlockIsApart(t: Layout, r: Layout)
    requires ExtentsOk(t) && t.top <= r.top && (t.top < SECTOR || r.chain == t.chain)
    requires r.chain == t.chain || r.chain == t.chain + [t.top]
    requires forall k: nat, b: nat :: InExtent(r.es, k, b) <==> InExtent(t.es, k, b)
    ensures ExtentsOk(r)
  {
    hide InExtent;
    forall k: nat, b: nat | InExtent(r.es, k, b) ensures DataBlock(r.chain, b) && !Free(r.top, b) {
      assert InExtent(t.es, k, b);
    }
  }

  /** GemFS_mkdir marks a block that from then on nothing refers to: no entry, no file, no record of
      the volume. */
  lemma MkdirLosesBlock(t: Layout, parent: nat, flags: Byte, name: Name)
    requires LayoutOk(t) && Fits(t, parent, flags, 0)
    ensures var r := Mkdir(t, parent, flags, name); var lost := r.top - 1;
            && t.top <= lost && !Free(r.top, lost) && DataBlock(r.chain, lost)
            && forall k: nat :: !InExtent(r.es, k, lost)
  {
    hide WithFree; hide TreeOk; hide AddChild; hide Kids; hide InExtent; hide OnlyLinksDiffer; hide IsDir; hide InUse;
    MkdirExtents(t, parent, flags, name, 0);
    var r := Mkdir(t, parent, flags, name);
    var lost: nat := r.top - 1;
    assert Free(t.top, lost);
    forall k: nat ensures !InExtent(r.es, k, lost) {
      assert InExtent(r.es, k, lost) <==> InExtent(t.es, k, lost);
    }
  }

  /** Reserving blocks ahead of the entry. */
  lemma ReserveOk(t: Layout, size: nat)
    requires LayoutOk(t) && t.top + size <= SECTOR
    ensures LayoutOk(t.(top := t.top + size))
  {
    ChainGrows(t.chain, t.top, size);
    hide TreeOk; hide InExtent; hide ChainOk; hide DataBlock;
    var r := t.(top := t.top + size);
    forall k: nat, b: nat | InExtent(r.es, k, b) ensures DataBlock(r.chain, b) && !Free(r.top, b) {
    }
  }

  /** Start and Size of a file are not part of the tree. */
  lemma ExtentNotInTree(es: seq<Entry>, i: nat, start: U64, size: U64)
    requires TreeOk(es) && IsFile(es, i)
    ensures var r := es[i := es[i].(start := start, size := size)];
            TreeOk(r) && forall d :: Kids(r, d) == Kids(es, d)
  {
    var r := es[i := es[i].(start := start, size := size)];
    hide KidsBelow; hide Kids; hide InUse; hide IsDir;
    forall d ensures Kids(r, d) == Kids(es, d) {
      KidsUnchanged(es, r, d);
    }
    forall d | 0 <= d < |r| && InUse(r[d]) && IsDir(r[d]) ensures DirectoryOk(r, d) {
      assert DirectoryOk(es, d);
      SpellsKept(es, r, d, Kids(es, d));
    }
  }

  lemma KidsUnchanged(es: seq<Entry>, r: seq<Entry>, d: nat)
    requires |r| == |es| && forall k :: 0 <= k < |es| ==> r[k].flags == es[k].flags && r[k].parent == es[k].parent
    ensures Kids(r, d) == Kids(es, d)
  {
    KidsSame(es, r, d, |es|);
  }

  /** What CreateFile's call of GemFS_mkdir leaves, and what CreateFile itself leaves. */
  ghost predicate FileMade(t: Layout, made: Layout, parent: nat, size: nat) {
    && LayoutOk(made) && |made.es| == NextIndex(t) + 1 && IsFile(made.es, NextIndex(t))
    && (forall d :: Kids(made.es, d) == if d == parent then Kids(t.es, d) + [NextIndex(t)] else Kids(t.es, d))
    && (forall k: nat, b: nat :: InExtent(made.es, k, b) <==> InExtent(t.es, k, b))
    && made.top == t.top + size + EntryCost(t)
    && made.chain == if Full(t) then t.chain + [t.top + size] else t.chain
  }

  lemma CreateFileReserved(t: Layout, t1: Layout, parent: nat, flags: Byte, name: Name, size: nat)
    requires LayoutOk(t) && Fits(t, parent, flags, size) && flags / 16 % 2 == 0
    requires t1 == t.(top := t.top + size) && Fits(t1, parent, flags, 0)
    ensures FileMade(t, Mkdir(t1, parent, flags, name), parent, size)
  {
    hide LayoutOk; hide WithFree; hide TreeOk; hide AddChild; hide Kids; hide InExtent; hide OnlyLinksDiffer;
    hide InUse; hide Fits; hide EntryCost; hide NextIndex; hide Full; hide IsDir;
    FitsReserved(t, parent, flags, size);
    ReserveOk(t, size);
    MkdirOk(t1, parent, flags, name);
    MkdirEntries(t1, parent, flags, name, 0);
    MkdirExtents(t1, parent, flags, name, 0);
    FlagsOf(Mkdir(t1, parent, flags, name).es[NextIndex(t1)], flags);
  }

  lemma FitsReserved(t: Layout, parent: nat, flags: Byte, size: nat)
    requires Fits(t, parent, flags, size)
    ensures var t1 := t.(top := t.top + size);
            && t.top + size + EntryCost(t) <= SECTOR && Fits(t1, parent, flags, 0)
            && EntryCost(t1) == EntryCost(t) && NextIndex(t1) == NextIndex(t) && Full(t1) == Full(t)
  {
  }

  lemma FlagsOf(e: Entry, flags: Byte)
    requires e.flags == flags && flags / 16 % 2 == 0
    ensures !IsDir(e)
  {
  }

  /** CreateFile keeps the layout; the new file gets `size` blocks that were free, and no other
      file's blocks change. */
  lemma CreateFileOk(t: Layout, parent: nat, flags: Byte, name: Name, size: nat)
    requires LayoutOk(t) && Fits(t, parent, flags, size) && flags / 16 % 2 == 0
    ensures var r := CreateFile(t, parent, flags, name, size); var free := NextIndex(t);
            && LayoutOk(r) && |r.es| == free + 1 && InUse(r.es[free])
            && (forall d :: Kids(r.es, d) == if d == parent then Kids(t.es, d) + [free] else Kids(t.es, d))
            && (forall k: nat, b: nat :: InExtent(r.es, k, b) <==>
                  if k == free then t.top <= b < t.top + size else InExtent(t.es, k, b))
  {
    hide LayoutOk; hide Mkdir; hide TreeOk; hide Kids; hide InUse; hide InExtent; hide IsFile; hide EntryCost;
    hide NextIndex; hide Full; hide Fits;
    FitsReserved(t, parent, flags, size);
    CreateFileReserved(t, t.(top := t.top + size), parent, flags, name, size);
    var made := Mkdir(t.(top := t.top + size), parent, flags, name);
    FileWithExtent(t, made, parent, size, CreateFile(t, parent, flags, name, size));
  }

  lemma FileWithExtent(t: Layout, made: Layout, parent: nat, size: nat, r: Layout)
    requires LayoutOk(t) && FileMade(t, made, parent, size) && t.top + size + EntryCost(t) <= SECTOR
    requires var free := NextIndex(t);
             r == made.(es := made.es[free := made.es[free].(start := t.top, size := size)])
    ensures var free := NextIndex(t);
            && LayoutOk(r) && |r.es| == free + 1 && InUse(r.es[free])
            && (forall d :: Kids(r.es, d) == if d == parent then Kids(t.es, d) + [free] else Kids(t.es, d))
            && (forall k: nat, b: nat :: InExtent(r.es, k, b) <==>
                  if k == free then t.top <= b < t.top + size else InExtent(t.es, k, b))
  {
    hide TreeOk; hide Kids; hide InUse; hide IsDir; hide ChainOk; hide InExtent;
    var free := NextIndex(t);
    assert forall b: nat :: !InExtent(t.es, free, b) by {
      NoExtentYet(t);
    }
    ExtentNotInTree(made.es, free, t.top, size);
    NewExtent(made.es, r.es, free, t.top, size);
    SameFlags(made.es[free], r.es[free]);
    assert ExtentsOk(r) by {
      ReservedExtentIsApart(t, r, free, size);
    }
  }

  lemma NewExtent(es: seq<Entry>, r: seq<Entry>, i: nat, start: U64, size: U64)
    requires IsFile(es, i) && r == es[i := es[i].(start := start, size := size)]
    ensures forall k: nat, b: nat :: InExtent(r, k, b) <==>
              if k == i then start <= b < start + size else InExtent(es, k, b)
  {
    hide InUse; hide IsDir;
    assert InUse(r[i]) == InUse(es[i]) && IsDir(r[i]) == IsDir(es[i]) by {
      assert r[i].flags == es[i].flags;
      SameFlags(r[i], es[i]);
    }
  }

  lemma SameFlags(e: Entry, e': Entry)
    requires e.flags == e'.flags
    ensures InUse(e) == InUse(e') && IsDir(e) == IsDir(e')
  {
  }

  lemma ReservedExtentIsApart(t: Layout, r: Layout, free: nat, size: nat)
    requires ChainOk(t.chain, t.top) && FIRST_FREE <= t.top && t.top + size <= SECTOR && ExtentsOk(t)
    requires t.top + size <= r.top && (t.top + size < r.top || r.chain == t.chain)
    requires r.chain == t.chain || r.chain == t.chain + [t.top + size]
    requires t.top + size == SECTOR ==> r.chain == t.chain
    requires forall k: nat, b: nat :: InExtent(r.es, k, b) <==>
               if k == free then t.top <= b < t.top + size else InExtent(t.es, k, b)
    ensures ExtentsOk(r)
  {
    hide InExtent;
    forall k: nat, b: nat | InExtent(r.es, k, b) ensures DataBlock(r.chain, b) && !Free(r.top, b) {
      if k == free {
        BlockAboveChain(t.chain, t.top, b);
      }
    }
  }

  lemma BlockAboveChain(chain: seq<nat>, top: nat, b: nat)
    requires ChainOk(chain, top) && FIRST_FREE <= top <= b
    ensures DataBlock(chain, b)
  {
  }

  // ---------------------------------------------------------------------------------
  // The new entry
  // ---------------------------------------------------------------------------------

  /** From t to r one entry has been added: what it holds, where it lies, and that of the other
      entries only the links have changed. */
  ghost predicate Added(t: Layout, r: Layout, e: Entry, size: nat) {
    var free := NextIndex(t);
    && |r.es| == free + 1 == |r.chain| && r.es[free] == e && free <= |t.es|
    && (forall k :: 0 <= k < free ==> OnlyLinksDiffer(t.es[k], r.es[k]))
    && r.chain == (if Full(t) then t.chain + [t.top + size] else t.chain)
    && r.top == t.top + size + if Full(t) then 2 else 1
  }

  /** GemFS_mkdir's entry knows its index, parent, flags and name, and is empty. */
  lemma MkdirAdds(t: Layout, parent: nat, flags: Byte, name: Name)
    requires LayoutOk(t) && Fits(t, parent, flags, 0)
    ensures Added(t, Mkdir(t, parent, flags, name), Entry(0, 0, NextIndex(t), parent, 0, 0, flags, 0, name), 0)
  {
    hide AddChild; hide WithFree; hide TreeOk; hide Kids; hide OnlyLinksDiffer; hide InUse; hide IsDir; hide ExtentsOk;
    MkdirEntries(t, parent, flags, name, 0);
  }

  /** GemFS_CreateFile's entry has its blocks besides. */
  lemma CreateFileAdds(t: Layout, parent: nat, flags: Byte, name: Name, size: nat)
    requires LayoutOk(t) && Fits(t, parent, flags, size)
    ensures Added(t, CreateFile(t, parent, flags, name, size), Entry(t.top, size, NextIndex(t), parent, 0, 0, flags, 0, name), size)
  {
    hide *;
    FitsReserved(t, parent, flags, size);
    FitsRoom(t, parent, flags, size);
    ReserveOk(t, size);
    MkdirAdds(t.(top := t.top + size), parent, flags, name);
    CreateFileUnfold(t, parent, flags, name, size);
    AddedWithExtent(t, Mkdir(t.(top := t.top + size), parent, flags, name), CreateFile(t, parent, flags, name, size), parent, flags, name, size);
  }

  lemma FitsRoom(t: Layout, parent: nat, flags: Byte, size: nat)
    requires Fits(t, parent, flags, size)
    ensures t.top + size <= SECTOR && NextIndex(t) < TWO_64 && parent < TWO_64 && t.top + size < TWO_64
  {
  }

  lemma CreateFileUnfold(t: Layout, parent: nat, flags: Byte, name: Name, size: nat)
    requires LayoutOk(t) && Fits(t, parent, flags, size) && Fits(t.(top := t.top + size), parent, flags, 0)
    requires t.top + size < TWO_64
    ensures var made := Mkdir(t.(top := t.top + size), parent, flags, name); var free := NextIndex(t);
            && free < |made.es|
            && CreateFile(t, parent, flags, name, size) == made.(es := made.es[free := made.es[free].(start := t.top, size := size)])
  {
    hide AddChild; hide InUse; hide IsDir; hide LayoutOk;
  }

  lemma AddedWithExtent(t: Layout, made: Layout, r: Layout, parent: U64, flags: Byte, name: Name, size: U64)
    requires t.top + size < TWO_64 && NextIndex(t) < TWO_64
    requires Added(t.(top := t.top + size), made, Entry(0, 0, NextIndex(t), parent, 0, 0, flags, 0, name), 0)
    requires var free := NextIndex(t);
             free < |made.es| && r == made.(es := made.es[free := made.es[free].(start := t.top, size := size)])
    ensures Added(t, r, Entry(t.top, size, NextIndex(t), parent, 0, 0, flags, 0, name), size)
  {
    hide OnlyLinksDiffer; hide InUse;
  }

  // ---------------------------------------------------------------------------------
  // Runs
  // ---------------------------------------------------------------------------------

  datatype Op =
    | MakeDir(parent: nat, flags: Byte, name: Name)
    | MakeFile(parent: nat, flags: Byte, name: Name, size: nat)

  /** The parent is a used directory and the bitmap's sector has room; CreateFile is asked for
      a file. */
  predicate Allowed(t: Layout, op: Op) {
    match op
    case MakeDir(parent, flags, name) => Fits(t, parent, flags, 0)
    case MakeFile(parent, flags, name, size) => Fits(t, parent, flags, size) && flags / 16 % 2 == 0
  }

  function Step(t: Layout, op: Op): Layout
    requires Allowed(t, op)
  {
    match op
    case MakeDir(parent, flags, name) => Mkdir(t, parent, flags, name)
    case MakeFile(parent, flags, name, size) => CreateFile(t, parent, flags, name, size)
  }

  predicate CanRun(t: Layout, ops: seq<Op>)
    decreases |ops|
  {
    ops == [] || (Allowed(t, ops[0]) && CanRun(Step(t, ops[0]), ops[1..]))
  }

  function Run(t: Layout, ops: seq<Op>): Layout
    requires CanRun(t, ops)
    decreases |ops|
  {
    if ops == [] then t else Run(Step(t, ops[0]), ops[1..])
  }

  lemma StepOk(t: Layout, op: Op)
    requires LayoutOk(t) && Allowed(t, op)
    ensures LayoutOk(Step(t, op))
    ensures forall k: nat, b: nat :: InExtent(t.es, k, b) ==> InExtent(Step(t, op).es, k, b)
    ensures forall d :: Kids(t.es, d) <= Kids(Step(t, op).es, d)
  {
    hide LayoutOk; hide Mkdir; hide CreateFile; hide Kids; hide Fits;
    assert forall b: nat :: !InExtent(t.es, NextIndex(t), b) by {
      NoExtentYet(t);
    }
    hide InExtent;
    match op
    case MakeDir(parent, flags, name) =>
      MkdirOk(t, parent, flags, name);
      MkdirEntries(t, parent, flags, name, 0);
      MkdirExtents(t, parent, flags, name, 0);
      MkdirIs(t, parent, flags, name);
    case MakeFile(parent, flags, name, size) =>
      CreateFileOk(t, parent, flags, name, size);
  }

  lemma MkdirIs(t: Layout, parent: nat, flags: Byte, name: Name)
    requires Fits(t, parent, flags, 0)
    ensures Mkdir(t, parent, flags, name).es == AddChild(WithFree(t), parent, flags, name)
  {
  }

  lemma NoExtentYet(t: Layout)
    requires LayoutOk(t)
    ensures forall b: nat :: !InExtent(t.es, NextIndex(t), b)
  {
  }

  /** Over any sequence of operations the tree and the extents stay as they should: every
      sibling walk lists exactly a directory's used children, in increasing order; extents stay
      disjoint from each other, from entry blocks and from the volume's records; and existing
      files keep their blocks. */
  lemma {:induction false} RunOk(t: Layout, ops: seq<Op>)
    requires LayoutOk(t) && CanRun(t, ops)
    ensures var r := Run(t, ops);
            && LayoutOk(r)
            && (forall k: nat, b: nat :: InExtent(t.es, k, b) ==> InExtent(r.es, k, b))
            && (forall d :: Kids(t.es, d) <= Kids(r.es, d))
            && forall d :: 0 <= d < |r.es| && InUse(r.es[d]) && IsDir(r.es[d]) ==> Walk(r.es, d) == Kids(r.es, d)
    decreases |ops|
  {
    if ops == [] {
      forall d | 0 <= d < |t.es| && InUse(t.es[d]) && IsDir(t.es[d]) ensures Walk(t.es, d) == Kids(t.es, d) {
        WalkIsChildren(t.es, d);
      }
    } else {
      hide LayoutOk; hide Kids; hide InExtent; hide InUse; hide IsDir; hide Walk; hide Step;
      StepOk(t, ops[0]);
      RunOk(Step(t, ops[0]), ops[1..]);
    }
  }

  // ---------------------------------------------------------------------------------
  // A formatted volume
  // ---------------------------------------------------------------------------------

  /** The root that formatting writes: flags 0b00010111 and the name "ROOT". */
  const ROOT := BLANK.(flags := 23, name := [82, 79, 79, 84] + ZeroBytes(NAME_BYTES - 4))

  const FORMATTED := Layout([ROOT], [MAIN_BLOCK], FIRST_FREE)

  /** Any run from a formatted volume. */
  lemma FormattedRunOk(ops: seq<Op>)
    requires CanRun(FORMATTED, ops)
    ensures LayoutOk(Run(FORMATTED, ops))
  {
    FormattedOk();
    hide LayoutOk;
    RunOk(FORMATTED, ops);
  }

  lemma FormattedOk()
    ensures LayoutOk(FORMATTED)
  {
    assert Kids([ROOT], 0) == [];
    assert DirectoryOk([ROOT], 0);
  }

  // ---------------------------------------------------------------------------------
  // An entry created ahead of its use
  // ---------------------------------------------------------------------------------

  function WithSpare(t: Layout, e: Entry): Layout {
    Layout(t.es + [e], t.chain + [t.top], t.top + 1)
  }

  lemma SpareOk(t: Layout, e: Entry)
    requires LayoutOk(t) && Full(t) && !InUse(e) && t.top < SECTOR && |t.es| + 1 < TWO_64
    ensures LayoutOk(WithSpare(t, e))
  {
    hide TreeOk; hide InUse; hide IsDir; hide ChainOk;
    FreeEntryKeepsTree(t.es, e);
    ChainGrows(t.chain, t.top, 1);
    var r := WithSpare(t, e);
    forall k: nat, b: nat ensures InExtent(r.es, k, b) <==> InExtent(t.es, k, b) {
    }
    FreeBlockIsApart(t, r);
  }

  /** GemFS_mkdir comes out the same whether or not the entry has been created already. */
  lemma SpareMkdir(t: Layout, e: Entry, parent: nat, flags: Byte, name: Name)
    requires LayoutOk(t) && Full(t) && !InUse(e) && Fits(t, parent, flags, 0)
    ensures var r := WithSpare(t, e);
            && Fits(r, parent, flags, 0) && NextIndex(r) == NextIndex(t)
            && Mkdir(r, parent, flags, name) == Mkdir(t, parent, flags, name)
  {
    hide AddChild; hide TreeOk; hide InUse; hide IsDir; hide ChainOk; hide ExtentsOk;
    FreeEntryIrrelevant(t.es, e, parent, flags, name);
    assert (t.es + [e])[parent] == t.es[parent];
  }
}
