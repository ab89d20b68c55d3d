/**
  A volume as a layout: what each write of an entry or of file data does to the entries, and to
  the contents of every file.
 */
module GemfsFiles {
  import opened Wrappers
  import opened Registers
  import opened ByteMemory
  import opened GemfsCodec
  import opened GemfsBitmap
  import opened GemfsTree
  import opened GemfsLayout
  import opened GemfsVolume

  function Entries(v: Vol): seq<Entry> {
    seq(|v.chain|, k requires 0 <= k < |v.chain| => Meta(EntryOf(v, k)))
  }

  function LayoutOf(v: Vol): Layout {
    Layout(Entries(v), v.chain, v.top)
  }

  /** A volume whose chain, tree and file extents are as they should be. */
  ghost predicate VolumeOk(v: Vol) {
    Valid(v) && LayoutOk(LayoutOf(v))
  }

  function Sectors(disk: Disk, start: nat, n: nat): (s: seq<Sector>)
    ensures |s| == n
  {
    seq<Sector>(n, i requires 0 <= i => Block(disk, start + i))
  }

  /** The sectors of file k. */
  function Contents(v: Vol, k: nat): (s: seq<Sector>)
    requires k < |v.chain|
    ensures |s| == EntryOf(v, k).size
  {
    Sectors(v.disk, EntryOf(v, k).start, EntryOf(v, k).size)
  }

  /** The entries' blocks stay where they are, and no block outside them and the records changes. */
  ghost predicate SameData(v: Vol, v': Vol) {
    v.chain <= v'.chain && forall b :: DataBlock(v'.chain, b) ==> Block(v'.disk, b) == Block(v.disk, b)
  }

  lemma SameDataTransitive(v: Vol, v1: Vol, v2: Vol)
    requires SameData(v, v1) && SameData(v1, v2)
    ensures SameData(v, v2)
  {
    hide Block;
    forall b | DataBlock(v2.chain, b) ensures Block(v2.disk, b) == Block(v.disk, b) {
      assert DataBlock(v1.chain, b);
    }
  }

  /** The first entry of all is looked for through block 0, which has to read as nothing. */
  ghost predicate FirstEntryFindable(v: Vol) {
    |v.chain| > 1 || (DecodeEntry(Block(v.disk, 0)).next == 0 && !InUse(DecodeEntry(Block(v.disk, 0))))
  }

  // ---------------------------------------------------------------------------------
  // Writing entries
  // ---------------------------------------------------------------------------------

  /** v' is v with entry i rewritten, its link as it was. */
  ghost predicate Wrote(v: Vol, v': Vol, i: nat, e: Entry) {
    && Valid(v') && v'.chain == v.chain && v'.top == v.top && i < |v.chain|
    && Entries(v') == Entries(v)[i := Meta(e)]
    && (forall k :: 0 <= k < |v.chain| ==> EntryOf(v', k).next == EntryOf(v, k).next)
    && SameData(v, v')
  }

  lemma WithEntryWrote(v: Vol, i: nat, e: Entry)
    requires Valid(v) && i < |v.chain| && e.next == EntryOf(v, i).next
    ensures Wrote(v, WithEntry(v, i, e), i, e)
  {
    hide EntryOf; hide WithEntry; hide Linked; hide Terminated; hide Block; hide Entries; hide UsedBelow; hide DecodeMain;
    hide ChainOk;
    var v' := WithEntry(v, i, e);
    WithEntryValid(v, i, e);
    WithEntrySpec(v, i, e);
    hide Core;
    EntriesAgree(v, v', i, e);
    assert SameData(v, v') by {
      hide Valid;
      assert v.chain[i] in v.chain;
    }
  }

  lemma EntriesAgree(v: Vol, v': Vol, i: nat, e: Entry)
    requires i < |v.chain| == |v'.chain|
    requires forall k :: 0 <= k < |v.chain| ==> EntryOf(v', k) == if k == i then e else EntryOf(v, k)
    ensures Entries(v') == Entries(v)[i := Meta(e)]
  {
    hide EntryOf;
  }

  lemma EntriesTaken(v: Vol)
    requires Valid(v) && v.top < SECTOR
    ensures var v' := Taken(v);
            && Valid(v') && v'.chain == v.chain && v'.top == v.top + 1 && Entries(v') == Entries(v)
            && SameData(v, v')
  {
    TakenSpec(v);
    TakenTop(v);
    hide EntryOf; hide Taken; hide Core;
    assert Entries(Taken(v)) == Entries(v);
  }

  lemma EntriesExtended(v: Vol, v': Vol)
    requires Valid(v) && Extended(v, v', |v.chain| + 1)
    ensures exists e :: !InUse(e) && Entries(v') == Entries(v) + [e]
    ensures v'.chain == v.chain + [v.top] && v'.top == v.top + 1 && SameData(v, v')
  {
    hide EntryOf; hide Block; hide Valid;
    var e := Entries(v')[|v.chain|];
    assert EntryOf(v', |v.chain|).flags == 0;
    assert !InUse(e);
    forall k | 0 <= k < |v.chain| ensures Entries(v')[k] == Entries(v)[k] {
      assert SameEntry(v, v', k);
    }
    assert Entries(v') == Entries(v) + [e];
  }

  // ---------------------------------------------------------------------------------
  // The next free entry
  // ---------------------------------------------------------------------------------

  /** `free` is the first unused index; its entry has been created if there was none. */
  ghost predicate FoundFree(v: Vol, v': Vol, free: nat) {
    && free <= |v.chain|
    && (forall k :: 0 <= k < free ==> InUse(EntryOf(v, k)))
    && if free < |v.chain| then v' == v && !InUse(EntryOf(v, free)) else Extended(v, v', free + 1)
  }

  /** The state in which GemFS_mkdir starts to write entries. */
  ghost predicate Prepared(v: Vol, v': Vol, parent: nat, flags: Byte) {
    var t, es := LayoutOf(v), Entries(v');
    && Valid(v') && |v'.chain| == NextIndex(t) + 1 && SameData(v, v') && CanAdd(es, parent, flags)
    && v'.chain == (if Full(t) then t.chain + [t.top] else t.chain) && v'.top == t.top + EntryCost(t) - 1
    && forall name: Name :: AddChild(es, parent, flags, name) == AddChild(WithFree(t), parent, flags, name)
  }

  lemma FreeIsNext(v: Vol, v': Vol, free: nat)
    requires VolumeOk(v) && FoundFree(v, v', free)
    ensures free == NextIndex(LayoutOf(v)) && (Full(LayoutOf(v)) <==> free == |v.chain|)
  {
    hide EntryOf; hide DirectoryOk; hide Valid; hide Extended; hide ExtentsOk; hide ChainOk;
    var es := Entries(v);
    assert forall k :: 0 <= k < |es| ==> InUse(es[k]) == InUse(EntryOf(v, k));
    hide InUse;
    if free < |es| {
      assert !InUse(es[free]);
    } else {
      assert InUse(es[|es| - 1]);
    }
  }

  lemma FoundFreePrepared(v: Vol, v': Vol, free: nat, parent: nat, flags: Byte)
    requires VolumeOk(v) && FoundFree(v, v', free) && Fits(LayoutOf(v), parent, flags, 0)
    ensures free == NextIndex(LayoutOf(v)) && Prepared(v, v', parent, flags)
  {
    hide AddChild; hide Block; hide Extended; hide Valid; hide EntryOf; hide ExtentsOk; hide ChainOk; hide TreeOk;
    hide IsDir; hide InUse;
    FreeIsNext(v, v', free);
    if free == |v.chain| {
      FullPrepared(v, v', parent, flags);
    } else {
      WithFreeCanAdd(LayoutOf(v), parent, flags, 0);
    }
  }

  lemma FullPrepared(v: Vol, v': Vol, parent: nat, flags: Byte)
    requires Valid(v) && LayoutOk(LayoutOf(v)) && Full(LayoutOf(v)) && Extended(v, v', |v.chain| + 1)
    requires Fits(LayoutOf(v), parent, flags, 0)
    ensures Prepared(v, v', parent, flags)
  {
    hide AddChild; hide Block; hide Valid; hide EntryOf; hide ExtentsOk; hide ChainOk; hide TreeOk;
    hide IsDir; hide InUse; hide CanAdd; hide SameEntry;
    EntriesExtended(v, v');
    var es := Entries(v);
    var e :| !InUse(e) && Entries(v') == es + [e];
    FreeAny(es, e, parent, flags);
  }

  lemma FreeAny(es: seq<Entry>, e: Entry, parent: nat, flags: Byte)
    requires TreeOk(es) && InUse(es[|es| - 1]) && !InUse(e) && |es| + 1 < TWO_64
    requires parent < |es| && IsDir(es[parent]) && flags % 2 == 1
    ensures CanAdd(es + [e], parent, flags)
    ensures forall name: Name :: AddChild(es + [e], parent, flags, name) == AddChild(es + [BLANK], parent, flags, name)
  {
    hide AddChild; hide TreeOk; hide InUse; hide IsDir; hide CanAdd;
    CanAddFree(es, e, parent, flags);
    forall name: Name ensures AddChild(es + [e], parent, flags, name) == AddChild(es + [BLANK], parent, flags, name) {
      FreeEntryIrrelevant(es, e, parent, flags, name);
    }
  }

  // ---------------------------------------------------------------------------------
  // The writes of GemFS_mkdir
  // ---------------------------------------------------------------------------------

  /** Following a sibling link from a child leads to the next child. */
  lemma SiblingIsKid(es: seq<Entry>, d: nat, c: nat)
    requires TreeOk(es) && d < |es| && InUse(es[d]) && IsDir(es[d]) && c in Kids(es, d)
    ensures 1 <= c < |es| && es[c].index == c
    ensures es[c].sibling != 0 ==> c < es[c].sibling < |es| && es[c].sibling in Kids(es, d)
  {
    hide KidsBelow; hide IsDir;
    KidsSpec(es, d, |es|);
    var ks := Kids(es, d);
    assert DirectoryOk(es, d) && IsChild(es[c], d) && es[c].index == c;
    hide TreeOk; hide InUse; hide Kids;
    NextInList(es, d, ks, c);
  }

  lemma NextInList(es: seq<Entry>, d: nat, ks: seq<nat>, c: nat)
    requires d < |es| && Spells(es, d, ks) && c in ks && Increasing(ks) && forall k :: k in ks ==> 1 <= k < |es|
    ensures es[c].sibling != 0 ==> c < es[c].sibling < |es| && es[c].sibling in ks
  {
    var j: nat :| j < |ks| && ks[j] == c;
    assert Sibling(es, ks[j]) == NextOf(ks, j);
    assert j + 1 < |ks| ==> ks[j + 1] in ks;
  }

  lemma StartIsKid(es: seq<Entry>, d: nat)
    requires TreeOk(es) && d < |es| && InUse(es[d]) && IsDir(es[d]) && es[d].start != 0
    ensures es[d].start in Kids(es, d)
  {
    assert DirectoryOk(es, d);
    hide Kids; hide InUse; hide IsDir;
  }

  /** The three writes make a child: the last sibling's, when there is one, then the new
      entry's, then the parent's, as it was read before the other two. */
  lemma MkdirWrote(v: Vol, a: Vol, b: Vol, c: Vol, parent: nat, flags: Byte, name: Name, p: Entry, last: Entry)
    requires |v.chain| <= TWO_64 && CanAdd(Entries(v), parent, flags) && p == EntryOf(v, parent)
    requires var free, tail := |v.chain| - 1, LastSibling(Entries(v), p.start);
             && (if p.start != 0 then tail < |v.chain| && last == EntryOf(v, tail) && Wrote(v, a, tail, last.(sibling := free)) else a == v)
             && Wrote(a, b, free, BLANK.(flags := flags, index := free, parent := parent, name := name))
             && Wrote(b, c, parent, if p.start == 0 then p.(start := free) else p)
    ensures Valid(c) && c.chain == v.chain && c.top == v.top && SameData(v, c)
    ensures Entries(c) == AddChild(Entries(v), parent, flags, name)
  {
    hide Valid; hide EntryOf; hide LastSibling; hide TreeOk; hide IsDir; hide InUse; hide Block;
    var es := Entries(v);
    assert es[parent] == Meta(p);
    if p.start != 0 {
      assert es[LastSibling(es, p.start)] == Meta(last);
    }
    hide Entries;
  }

  /** One turn of the sibling loop, at child c. */
  lemma MkdirWalk(v: Vol, parent: nat, flags: Byte, c: nat, cur: Entry)
    requires CanAdd(Entries(v), parent, flags) && c in Kids(Entries(v), parent)
    requires c < |v.chain| ==> cur == EntryOf(v, c)
    ensures var es := Entries(v);
            && 1 <= c < |v.chain| && cur.index == c
            && if cur.sibling == 0 then LastSibling(es, c) == c
               else c < cur.sibling < |v.chain| && cur.sibling in Kids(es, parent)
                    && LastSibling(es, c) == LastSibling(es, cur.sibling)
  {
    var es := Entries(v);
    assert InUse(es[parent]);
    hide EntryOf; hide Kids; hide InUse; hide IsDir;
    SiblingIsKid(es, parent, c);
    hide TreeOk;
    assert es[c] == Meta(cur);
  }

  lemma MkdirWalkStart(v: Vol, parent: nat, flags: Byte, p: Entry)
    requires CanAdd(Entries(v), parent, flags) && p == EntryOf(v, parent) && p.start != 0
    ensures p.start in Kids(Entries(v), parent) && p.start < |v.chain|
  {
    var es := Entries(v);
    assert InUse(es[parent]);
    hide EntryOf; hide Kids; hide InUse; hide IsDir;
    assert es[parent] == Meta(p);
    StartIsKid(es, parent);
    SiblingIsKid(es, parent, p.start);
  }

  /** All of GemFS_mkdir: the free entry found (v1), a block marked (v2), the entries written (v3). */
  lemma MkdirDone(v: Vol, v1: Vol, v2: Vol, v3: Vol, parent: nat, flags: Byte, name: Name)
    requires VolumeOk(v) && Fits(LayoutOf(v), parent, flags, 0) && Prepared(v, v1, parent, flags)
    requires Valid(v3) && v1.top < SECTOR && v2 == Taken(v1) && v3.chain == v2.chain && v3.top == v2.top
    requires SameData(v1, v2) && SameData(v2, v3) && Entries(v2) == Entries(v1) && v2.chain == v1.chain
    requires Entries(v3) == AddChild(Entries(v1), parent, flags, name)
    ensures VolumeOk(v3) && LayoutOf(v3) == GemfsLayout.Mkdir(LayoutOf(v), parent, flags, name) && SameData(v, v3)
  {
    hide Entries; hide Valid; hide Block; hide LayoutOk; hide AddChild; hide WithFree; hide CanAdd; hide IsDir; hide InUse;
    TakenTop(v1);
    hide Taken;
    MkdirOk(LayoutOf(v), parent, flags, name);
  }

  // ---------------------------------------------------------------------------------
  // Files
  // ---------------------------------------------------------------------------------

  /** Files keep their extents. */
  ghost predicate FilesStay(es: seq<Entry>, es': seq<Entry>) {
    forall k: nat :: IsFile(es, k) ==> k < |es| && IsFile(es', k) && es'[k].start == es[k].start && es'[k].size == es[k].size
  }

  /** File k has the contents it had. */
  ghost predicate SameFile(v: Vol, v': Vol, k: nat) {
    k < |v.chain| && k < |v'.chain| && Contents(v', k) == Contents(v, k)
  }

  /** Every file of v, but perhaps one, has the contents it had. */
  ghost predicate SameFiles(v: Vol, v': Vol, but: Option<nat>) {
    forall k: nat :: IsFile(Entries(v), k) && but != Some(k) ==> SameFile(v, v', k)
  }

  lemma MkdirFilesStay(t: Layout, parent: nat, flags: Byte, name: Name)
    requires LayoutOk(t) && Fits(t, parent, flags, 0)
    ensures FilesStay(t.es, GemfsLayout.Mkdir(t, parent, flags, name).es)
  {
    hide WithFree; hide AddChild; hide Kids; hide LayoutOk; hide TreeOk; hide OnlyLinksDiffer;
    MkdirEntries(t, parent, flags, name, 0);
    var r := GemfsLayout.Mkdir(t, parent, flags, name);
    assert NextIndex(t) < |t.es| ==> !InUse(t.es[NextIndex(t)]);
    hide InUse; hide IsDir; hide GemfsLayout.Mkdir;
    forall k: nat | IsFile(t.es, k) ensures IsFile(r.es, k) && r.es[k].start == t.es[k].start && r.es[k].size == t.es[k].size {
      SameUse(t.es[k], r.es[k]);
    }
  }

  lemma ContentsKept(v: Vol, v': Vol, k: nat)
    requires LayoutOk(LayoutOf(v')) && SameData(v, v') && FilesStay(Entries(v), Entries(v'))
    requires IsFile(Entries(v), k)
    ensures SameFile(v, v', k)
  {
    hide Block; hide EntryOf; hide TreeOk; hide ChainOk;
    HoldsExtent(v', k);
    var e, e' := EntryOf(v, k), EntryOf(v', k);
    assert Meta(e) == Entries(v)[k] && Meta(e') == Entries(v')[k];
    assert e.start == e'.start && e.size == e'.size;
    hide IsFile; hide Entries; hide InExtent; hide DataBlock;
    forall i | 0 <= i < e.size ensures Contents(v', k)[i] == Contents(v, k)[i] {
      assert Holds(v', k, e.start + i);
    }
  }

  /** Writing entries under a kept layout touches no file. */
  lemma FilesKept(v: Vol, v': Vol)
    requires LayoutOk(LayoutOf(v')) && SameData(v, v') && FilesStay(Entries(v), Entries(v'))
    ensures SameFiles(v, v', None)
  {
    hide LayoutOk; hide Entries; hide SameData; hide FilesStay; hide SameFile; hide IsFile;
    forall k: nat | IsFile(Entries(v), k) ensures SameFile(v, v', k) {
      ContentsKept(v, v', k);
    }
  }

  /** GemFS_mkdir leaves every file its contents. */
  lemma MkdirSameFiles(v: Vol, v': Vol, parent: nat, flags: Byte, name: Name)
    requires VolumeOk(v) && VolumeOk(v') && SameData(v, v') && Fits(LayoutOf(v), parent, flags, 0)
    requires LayoutOf(v') == GemfsLayout.Mkdir(LayoutOf(v), parent, flags, name)
    ensures SameFiles(v, v', None)
  {
    hide Valid; hide LayoutOk; hide SameData; hide FilesStay; hide SameFiles; hide Fits; hide GemfsLayout.Mkdir; hide Entries;
    MkdirFilesStay(LayoutOf(v), parent, flags, name);
    FilesKept(v, v');
  }

  /** ... and so does GemFS_CreateFile. */
  lemma CreateFileSameFiles(v: Vol, v': Vol, parent: nat, flags: Byte, name: Name, size: nat)
    requires VolumeOk(v) && VolumeOk(v') && SameData(v, v') && Fits(LayoutOf(v), parent, flags, size)
    requires LayoutOf(v') == GemfsLayout.CreateFile(LayoutOf(v), parent, flags, name, size)
    ensures SameFiles(v, v', None)
  {
    hide Valid; hide LayoutOk; hide SameData; hide FilesStay; hide SameFiles; hide Fits; hide GemfsLayout.CreateFile; hide Entries;
    CreateFileFilesStay(LayoutOf(v), parent, flags, name, size);
    FilesKept(v, v');
  }

  lemma CreateFileFilesStay(t: Layout, parent: nat, flags: Byte, name: Name, size: nat)
    requires LayoutOk(t) && Fits(t, parent, flags, size)
    ensures FilesStay(t.es, GemfsLayout.CreateFile(t, parent, flags, name, size).es)
  {
    hide LayoutOk; hide AddChild; hide InUse; hide IsDir;
    FitsReserved(t, parent, flags, size);
    var t1 := t.(top := t.top + size);
    ReserveOk(t, size);
    MkdirFilesStay(t1, parent, flags, name);
    var r := GemfsLayout.CreateFile(t, parent, flags, name, size);
    NextNotFile(t);
    var made, next := GemfsLayout.Mkdir(t1, parent, flags, name), NextIndex(t);
    assert r.es == made.es[next := made.es[next].(start := t.top, size := size)];
    forall k: nat | IsFile(t.es, k) ensures IsFile(r.es, k) && r.es[k].start == t.es[k].start && r.es[k].size == t.es[k].size {
      assert k != next && IsFile(made.es, k);
    }
  }

  lemma NextNotFile(t: Layout)
    requires LayoutOk(t)
    ensures !IsFile(t.es, NextIndex(t))
  {
  }

  // ---------------------------------------------------------------------------------
  // Reading and writing data
  // ---------------------------------------------------------------------------------

  /** Consecutive sectors written from `start` on. */
  function WriteBlocks(disk: Disk, start: nat, data: seq<Sector>): Disk
    decreases |data|
  {
    if data == [] then disk else WriteBlocks(disk[start := data[0]], start + 1, data[1..])
  }

  lemma {:induction false} WriteBlocksAt(disk: Disk, start: nat, data: seq<Sector>, b: nat)
    ensures Block(WriteBlocks(disk, start, data), b) ==
              if start <= b < start + |data| then data[b - start] else Block(disk, b)
    decreases |data|
  {
    if data != [] {
      WriteBlocksAt(disk[start := data[0]], start + 1, data[1..], b);
    }
  }

  lemma SectorsWritten(disk: Disk, start: nat, data: seq<Sector>)
    ensures Sectors(WriteBlocks(disk, start, data), start, |data|) == data
  {
    hide Block; hide WriteBlocks;
    var d := WriteBlocks(disk, start, data);
    forall i | 0 <= i < |data| ensures Sectors(d, start, |data|)[i] == data[i] {
      WriteBlocksAt(disk, start, data, start + i);
    }
  }

  /** The blocks from..from + n lie outside start..start + m. */
  ghost predicate Apart(from: nat, n: nat, start: nat, m: nat) {
    forall b: nat {:trigger Inside(b, from, n)} :: Inside(b, from, n) ==> !Inside(b, start, m)
  }

  predicate Inside(b: nat, from: nat, n: nat) {
    from <= b < from + n
  }

  lemma SectorsElsewhere(disk: Disk, start: nat, data: seq<Sector>, from: nat, n: nat)
    requires Apart(from, n, start, |data|)
    ensures Sectors(WriteBlocks(disk, start, data), from, n) == Sectors(disk, from, n)
  {
    hide Block; hide WriteBlocks;
    var d := WriteBlocks(disk, start, data);
    forall i | 0 <= i < n ensures Sectors(d, from, n)[i] == Sectors(disk, from, n)[i] {
      assert Inside(from + i, from, n);
      WriteBlocksAt(disk, start, data, from + i);
    }
  }

  /** Block b lies in the extent of file k. */
  predicate Holds(v: Vol, k: nat, b: nat)
    requires k < |v.chain|
  {
    Inside(b, EntryOf(v, k).start, EntryOf(v, k).size)
  }

  lemma HoldsExtent(v: Vol, k: nat)
    requires IsFile(Entries(v), k)
    ensures k < |v.chain| && forall b: nat :: Holds(v, k, b) <==> InExtent(Entries(v), k, b)
  {
    hide EntryOf; hide InUse; hide IsDir;
    assert Entries(v)[k] == Meta(EntryOf(v, k));
  }

  lemma ExtentOf(v: Vol, k: nat)
    requires VolumeOk(v) && IsFile(Entries(v), k)
    ensures k < |v.chain| && forall b: nat :: Holds(v, k, b) ==> DataBlock(v.chain, b)
  {
    hide Holds; hide InExtent; hide Valid; hide TreeOk; hide ChainOk; hide IsFile; hide Entries; hide DataBlock;
    HoldsExtent(v, k);
  }

  lemma ExtentsApart(v: Vol, j: nat, k: nat)
    requires VolumeOk(v) && IsFile(Entries(v), j) && IsFile(Entries(v), k) && j != k
    ensures j < |v.chain| && k < |v.chain|
    ensures Apart(EntryOf(v, j).start, EntryOf(v, j).size, EntryOf(v, k).start, EntryOf(v, k).size)
  {
    hide InExtent; hide Valid; hide TreeOk; hide ChainOk; hide IsFile; hide Entries; hide DataBlock; hide Inside; hide EntryOf;
    HoldsExtent(v, j);
    HoldsExtent(v, k);
    forall b: nat | Inside(b, EntryOf(v, j).start, EntryOf(v, j).size)
      ensures !Inside(b, EntryOf(v, k).start, EntryOf(v, k).size) {
      assert Holds(v, j, b);
      assert Holds(v, k, b) == Inside(b, EntryOf(v, k).start, EntryOf(v, k).size);
    }
  }

  /** Writing data blocks leaves entries and records as they are. */
  lemma DataKeepsVolume(v: Vol, v': Vol)
    requires VolumeOk(v) && v' == v.(disk := v'.disk)
    requires forall b: nat :: !DataBlock(v.chain, b) ==> Block(v'.disk, b) == Block(v.disk, b)
    ensures VolumeOk(v') && LayoutOf(v') == LayoutOf(v) && forall k :: 0 <= k < |v.chain| ==> EntryOf(v', k) == EntryOf(v, k)
  {
    hide Block; hide DecodeEntry; hide DecodeMain; hide UsedBelow; hide LayoutOk;
    assert forall k :: 0 <= k < |v.chain| ==> v.chain[k] in v.chain;
    assert forall k :: 0 <= k < |v.chain| ==> EntryOf(v', k) == EntryOf(v, k);
    assert Linked(v') && Terminated(v');
    hide EntryOf; hide Linked; hide Terminated; hide ChainOk;
    assert Entries(v') == Entries(v);
  }

  /** GemFS_WriteFile on the volume. */
  function Written(v: Vol, k: nat, buffer: seq<Sector>): Vol
    requires k < |v.chain| && EntryOf(v, k).size <= |buffer|
  {
    v.(disk := WriteBlocks(v.disk, EntryOf(v, k).start, buffer[..EntryOf(v, k).size]))
  }

  /** A file that has been written reads back as written, no other file changes, and the volume
      and its layout are kept. */
  lemma WrittenSpec(v: Vol, k: nat, buffer: seq<Sector>)
    requires VolumeOk(v) && IsFile(Entries(v), k) && k < |v.chain| && EntryOf(v, k).size <= |buffer|
    ensures var v' := Written(v, k, buffer);
            && VolumeOk(v') && LayoutOf(v') == LayoutOf(v) && EntryOf(v', k) == EntryOf(v, k)
            && Contents(v', k) == buffer[..EntryOf(v, k).size]
            && SameFiles(v, v', Some(k))
  {
    hide Block; hide VolumeOk; hide WriteBlocks; hide EntryOf; hide DataBlock; hide IsFile; hide Entries; hide Sectors;
    ExtentOf(v, k);
    var e, v' := EntryOf(v, k), Written(v, k, buffer);
    var data := buffer[..e.size];
    forall b: nat | !DataBlock(v.chain, b) ensures Block(v'.disk, b) == Block(v.disk, b) {
      assert !Holds(v, k, b);
      WriteBlocksAt(v.disk, e.start, data, b);
    }
    DataKeepsVolume(v, v');
    SectorsWritten(v.disk, e.start, data);
    forall j: nat | IsFile(Entries(v), j) && j != k ensures SameFile(v, v', j) {
      ExtentsApart(v, j, k);
      SectorsElsewhere(v.disk, e.start, data, EntryOf(v, j).start, EntryOf(v, j).size);
    }
  }
}
