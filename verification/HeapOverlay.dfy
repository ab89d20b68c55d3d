/**
  What the kernel's heap does to its direct map when a program is loaded (LoadElf in
  src/kernel/drivers/Userland/Tasks.c).
 */
module HeapOverlay {
  import opened Words
  import opened PageTables
  import opened AddressSpace
  import opened CopyOnWrite
  import opened Fork
  import opened MemoryRuns
  import opened Launch
  import opened DirectMap
  import opened Boot

  /** The state in which LoadElf has mapped the program and allocates the kernel stack. */
  function Loaded(s: Sys, ps: seq<Page>): Sys {
    var (s1, c) := CreateUserMemory(s);
    LoadPages(s1.(cur := c), ps)
  }

  lemma LoadedFacts(s: Sys, ps: seq<Page>)
    requires Inv(s) && CanLoad(s, ps)
    ensures var s2 := Loaded(s, ps); var c := CreateUserMemory(s).1;
            && Inv(s2) && s2.kpages == s.kpages + 1 && s2.cur == c && MallocFits(s2, KERNEL_STACK_PAGES)
            && IsRoot(s2.role, s.cur) && IsRoot(s2.role, c)
            && Load(s, ps) == (MallocTimes(s2, KERNEL_STACK_PAGES).(cur := s.cur), c)
    ensures CreateUserMemory(s).0.cur == s.cur
  {
    assert IsRoot(s.role, s.cur);
    hide CreateUserMemory; hide LoadPages; hide LoadFits; hide MallocTimes; hide MallocFits; hide CanMalloc; hide Leaf;
    hide Inv; hide UserLeavesKept; hide OthersKept; hide FindFree; hide Free;
    CreateFacts(s);
    CreateUserMemoryKeeps(s);
    var (s1, c) := CreateUserMemory(s);
    SameButCur(s1, c);
    LoadPagesAccount(s1.(cur := c), ps);
  }

  lemma SlotOf(f: nat)
    requires f < 0x800_0000
    ensures Index(USER_PAGES + f, 4) == KERNEL_SLOT && USER_PAGES + f < ALL_PAGES
  {
    DirectHigh(f);
  }

  /** The five heap pages of the kernel stack pass over the direct map of five frames.  Those of
      them that are in use by then, for the program's pages or for its page tables, are out of the
      direct map's reach once the program is loaded. */
  lemma LoadLosesDirectMap(s: Sys, ps: seq<Page>, f: nat)
    requires Inv(s) && CanLoad(s, ps) && f < 0x800_0000
    requires s.kpages + 2 <= f < s.kpages + 2 + KERNEL_STACK_PAGES && f !in Free(Loaded(s, ps).info)
    ensures !DirectMapped(Load(s, ps).0, f)
  {
    hide CreateUserMemory; hide LoadPages; hide LoadFits; hide MallocTimes; hide MallocFits; hide CanLoad; hide Leaf;
    hide Inv; hide Free; hide Loaded; hide Load;
    LoadedFacts(s, ps);
    SlotOf(f);
    var s2 := Loaded(s, ps);
    MallocTimesDirectMap(s2, KERNEL_STACK_PAGES, f);
    MallocTimesSafe(s2, KERNEL_STACK_PAGES);
    var s3 := MallocTimes(s2, KERNEL_STACK_PAGES);
    KernelHalfAgrees(s3, s3.cur, s.cur, USER_PAGES + f);
  }

  // ---------------------------------------------------------------------------------
  // Allocation in order
  // ---------------------------------------------------------------------------------

  /** Frames are free exactly from t on. */
  ghost predicate FreeFrom(info: seq<FrameInfo>, t: nat) {
    forall f: nat :: f in Free(info) <==> t <= f < |info|
  }

  lemma TakenFirst(info: seq<FrameInfo>, t: nat)
    requires FreeFrom(info, t) && Free(info) != {}
    ensures FindFree(info) == t && t < |info|
  {
    FindFreeSpec(info);
    var f :| f in Free(info);
    assert t in Free(info);
  }

  /** One frame taken off the front. */
  lemma FreeFromNext(info: seq<FrameInfo>, info': seq<FrameInfo>, t: nat)
    requires FreeFrom(info, t) && t < |info| == |info'| && Free(info') == Free(info) - {t}
    ensures FreeFrom(info', t + 1)
  {
    hide Free;
  }

  /** A walk takes its tables off the front. */
  lemma {:induction false} WalkFreeFrom(s: Sys, n: nat, level: nat, t: nat)
    requires Inv(s) && n < ALL_PAGES && 1 <= level <= 4 && FreeFrom(s.info, t)
    requires |Free(s.info)| >= Missing(s.mem, s.cur, n, level)
    ensures FreeFrom(EnsureTo(s, n, level).info, t + Missing(s.mem, s.cur, n, level))
    decreases 4 - level
  {
    hide Inv; hide Leaf; hide FindFree; hide FreeFrom; hide Ensure; hide Extends; hide Free; hide Table;
    if level < 4 {
      EnsureToKeeps(s, n, level + 1);
      WalkFreeFrom(s, n, level + 1, t);
      var s1 := EnsureTo(s, n, level + 1);
      StepFreeFrom(s1, n, level, t + Missing(s.mem, s.cur, n, level + 1));
    }
  }

  lemma StepFreeFrom(s: Sys, n: nat, level: nat, t: nat)
    requires Inv(s) && n < ALL_PAGES && 1 <= level < 4 && FreeFrom(s.info, t)
    requires Table(s.mem, s.cur, n, level + 1).Some? && (Table(s.mem, s.cur, n, level).Some? || Free(s.info) != {})
    ensures var s' := Ensure(s, Table(s.mem, s.cur, n, level + 1).value, Index(n, level + 1), WalkFlags(n));
            FreeFrom(s'.info, t + if Table(s.mem, s.cur, n, level).None? then 1 else 0)
  {
    hide LeavesOwned; hide KernelHalfShared; hide Leaf; hide FindFree; hide FreeFrom; hide Free;
    TableRole(s.mem, s.role, s.cur, n, level + 1);
    var i := Index(n, level + 1);
    var u := Table(s.mem, s.cur, n, level + 1).value;
    if Table(s.mem, s.cur, n, level).None? {
      EnsureHooks(s, u, i, WalkFlags(n));
      TakenFirst(s.info, t);
      FreeFromNext(s.info, Ensure(s, u, i, WalkFlags(n)).info, t);
    }
  }

  /** malloc takes a frame off the front, then what tables its page lacks. */
  lemma MallocFreeFrom(s: Sys, t: nat)
    requires Inv(s) && CanMalloc(s) && FreeFrom(s.info, t)
    ensures FindFree(s.info) == t && t < |s.info|
    ensures FreeFrom(Malloc(s).info, t + 1 + Missing(s.mem, s.cur, HeapPage(s), 1))
  {
    hide Malloc; hide Linked; hide LeavesOwned; hide KernelHalfShared; hide Leaf; hide FindFree; hide FreeFrom; hide EnsureTo;
    hide SetLeaf; hide Free; hide Missing;
    ReserveInv(s);
    var s1 := Reserve(s);
    TakenFirst(s.info, t);
    FreeFromNext(s.info, s1.info, t);
    MissingAfterReserve(s);
    WalkFreeFrom(s1, HeapPage(s), 1, t + 1);
    SetLeafInfo(EnsureTo(s1, HeapPage(s), 1), HeapPage(s), NewEntry(t, KERNEL_FLAGS, true));
  }

  lemma MissingAfterReserve(s: Sys)
    requires Inv(s) && CanMalloc(s)
    ensures |Free(Reserve(s).info)| >= Missing(Reserve(s).mem, Reserve(s).cur, HeapPage(s), 1)
    ensures Missing(Reserve(s).mem, Reserve(s).cur, HeapPage(s), 1) == Missing(s.mem, s.cur, HeapPage(s), 1)
  {
    hide Linked; hide LeavesOwned; hide KernelHalfShared; hide Leaf; hide Missing;
    ReserveInv(s);
    assert |Free(s.info) - {FindFree(s.info)}| == |Free(s.info)| - 1;
  }

  /** Mapping a program's page takes a frame off the front, then what tables it lacks. */
  lemma LoadPageFreeFrom(s: Sys, p: Page, t: nat)
    requires Inv(s) && CanMapFresh(s, p.n) && FreeFrom(s.info, t)
    ensures FindFree(s.info) == t && t < |s.info|
    ensures FreeFrom(LoadPage(s, p).info, t + 1 + Missing(s.mem, s.cur, p.n, 1))
  {
    hide *;
    FreshTarget(s, p.n, t);
    ClaimInv(s, p.n, t);
    ClaimedWalk(s, p, t);
    var s1 := s.(info := s.info[t := Claim(s.info[t])]);
    FreeFromNext(s.info, s1.info, t);
    WalkFreeFrom(s1, p.n, 1, t + 1);
  }

  lemma FreshTarget(s: Sys, n: nat, t: nat)
    requires CanMapFresh(s, n) && FreeFrom(s.info, t)
    ensures FindFree(s.info) == t && CanAlloc(s, n, t) && t < |s.info|
  {
    TakenFirst(s.info, t);
    hide FindFree;
  }

  /** What LoadPage leaves of phys_frames is what its walk leaves once the frame is claimed. */
  lemma ClaimedWalk(s: Sys, p: Page, t: nat)
    requires Inv(s) && CanAlloc(s, p.n, t) && t < |s.info| && FindFree(s.info) == t
    ensures var s1 := s.(info := s.info[t := Claim(s.info[t])]);
            && LoadPage(s, p).info == EnsureTo(s1, p.n, 1).info
            && Missing(s1.mem, s1.cur, p.n, 1) == Missing(s.mem, s.cur, p.n, 1) && p.n < ALL_PAGES
            && |Free(s1.info)| >= Missing(s1.mem, s1.cur, p.n, 1)
            && |s1.info| == |s.info| && forall f :: 0 <= f < |s.info| && f != t ==> s1.info[f] == s.info[f]
  {
    hide Linked; hide LeavesOwned; hide KernelHalfShared; hide Leaf; hide FindFree; hide EnsureTo; hide SetLeaf; hide Missing;
    ClaimInv(s, p.n, t);
    hide Free;
    var s1 := s.(info := s.info[t := Claim(s.info[t])]);
    SetLeafInfo(EnsureTo(s1, p.n, 1), p.n, NewEntry(t, PageFlags(p), p.xd));
  }

  lemma {:induction false} LoadPagesFreeFrom(s: Sys, ps: seq<Page>, t: nat) returns (t': nat)
    requires Inv(s) && LoadFits(s, ps) && FreeFrom(s.info, t)
    ensures FreeFrom(LoadPages(s, ps).info, t') && t' >= t + |ps|
    decreases |ps|
  {
    hide LoadPage; hide CanMapFresh; hide Inv; hide Leaf; hide Free; hide FindFree; hide FreeFrom; hide Missing;
    if ps == [] {
      t' := t;
    } else {
      LoadPageFacts(s, ps[0]);
      LoadPageFreeFrom(s, ps[0], t);
      t' := LoadPagesFreeFrom(LoadPage(s, ps[0]), ps[1..], t + 1 + Missing(s.mem, s.cur, ps[0].n, 1));
    }
  }

  // ---------------------------------------------------------------------------------
  // What the heap takes from the direct map
  // ---------------------------------------------------------------------------------

  /** Once the allocator is past the heap's next frame, every heap page takes one frame from the
      direct map. */
  lemma {:induction false} HeapTakesAll(s: Sys, k: nat, t: nat, f: nat)
    requires Inv(s) && MallocFits(s, k) && FreeFrom(s.info, t) && t > HeapFrame(s)
    requires HeapFrame(s) <= f < HeapFrame(s) + k && USER_PAGES + f < ALL_PAGES
    ensures !DirectMapped(MallocTimes(s, k), f)
    decreases k
  {
    hide Malloc; hide Inv; hide CanMalloc; hide DirectMapped; hide Free; hide FindFree; hide FreeFrom; hide Missing;
    MallocFreeFrom(s, t);
    MallocFree(s);
    MallocDirectMap(s, f);
    if f == HeapFrame(s) {
      MallocTimesDirectMap(Malloc(s), k - 1, f);
    } else {
      HeapTakesAll(Malloc(s), k - 1, t + 1 + Missing(s.mem, s.cur, HeapPage(s), 1), f);
    }
  }

  /** Loading pages is no matter of the direct map. */
  lemma {:induction false} LoadPagesDirectMap(s: Sys, ps: seq<Page>, f: nat)
    requires Inv(s) && LoadFits(s, ps) && USER_PAGES + f < ALL_PAGES
    ensures DirectMapped(LoadPages(s, ps), f) <==> DirectMapped(s, f)
    decreases |ps|
  {
    hide LoadPage; hide CanMapFresh; hide Inv; hide Leaf;
    if ps != [] {
      LoadPageFacts(s, ps[0]);
      LoadPageKernel(s, ps[0], f);
      LoadPagesDirectMap(LoadPage(s, ps[0]), ps[1..], f);
    }
  }

  lemma LoadPageKernel(s: Sys, p: Page, f: nat)
    requires Inv(s) && CanMapFresh(s, p.n) && USER_PAGES + f < ALL_PAGES
    ensures Leaf(LoadPage(s, p).mem, s.cur, USER_PAGES + f) == Leaf(s.mem, s.cur, USER_PAGES + f)
  {
    hide Alloc; hide Leaf; hide Linked; hide LeavesOwned; hide KernelHalfShared; hide FindFree;
    AllocIsLocal(s, p.n, FindFree(s.info), PageFlags(p), p.xd);
  }

  /** Making the new root is not, either, and the new root has the same direct map. */
  lemma CreateDirectMap(s: Sys, f: nat)
    requires Inv(s) && CanMalloc(s) && f < 0x800_0000
    ensures var (s1, c) := CreateUserMemory(s);
            && (DirectMapped(s1, f) <==> DirectMapped(Malloc(s), f))
            && (DirectMapped(s1.(cur := c), f) <==> DirectMapped(s1, f))
  {
    hide Malloc; hide Linked; hide LeavesOwned; hide Leaf; hide FindFree;
    SlotOf(f);
    MallocKeeps(s);
    CreateUserMemoryKeeps(s);
    var (s1, c) := CreateUserMemory(s);
    MakeRoot(Malloc(s), FindFree(s.info));
    KernelHalfAgrees(s1, c, s1.cur, USER_PAGES + f);
  }

  lemma CreateFreeFrom(s: Sys, t: nat)
    requires Inv(s) && CanMalloc(s) && FreeFrom(s.info, t)
    ensures FreeFrom(CreateUserMemory(s).0.info, t + 1 + Missing(s.mem, s.cur, HeapPage(s), 1))
  {
    hide Malloc; hide Inv; hide FreeFrom; hide Leaf; hide Missing;
    MallocFreeFrom(s, t);
  }

  /** The state after a program has been loaded, seen through the direct map, when the allocator was
      past the heap's next frame but one at the latest: the six pages that the heap grows by are
      lost, but for the first if it is backed by the frame that it stands for. */
  lemma LoadDirectMapIff(s: Sys, ps: seq<Page>, t: nat, f: nat)
    requires Inv(s) && CanLoad(s, ps) && ps != [] && FreeFrom(s.info, t) && t >= HeapFrame(s) && f < 0x800_0000
    ensures DirectMapped(Load(s, ps).0, f) <==>
              if f == HeapFrame(s) then t == HeapFrame(s)
              else !(HeapFrame(s) < f <= HeapFrame(s) + KERNEL_STACK_PAGES) && DirectMapped(s, f)
  {
    hide CreateUserMemory; hide LoadPages; hide LoadFits; hide MallocTimes; hide MallocFits; hide Leaf; hide CanMalloc;
    hide Inv; hide Free; hide Loaded; hide Load; hide FreeFrom; hide FindFree; hide DirectMapped; hide Missing; hide Malloc;
    LoadedFacts(s, ps);
    SlotOf(f);
    CreateFacts(s);
    var (s1, c) := CreateUserMemory(s);
    SameButCur(s1, c);
    CreateDirectMap(s, f);
    MallocDirectMap(s, f);
    CreateFreeFrom(s, t);
    MallocFreeFrom(s, t);
    var s1c := s1.(cur := c);
    LoadedIs(s, ps);
    LoadPagesDirectMap(s1c, ps, f);
    var t2 := LoadPagesFreeFrom(s1c, ps, t + 1 + Missing(s.mem, s.cur, HeapPage(s), 1));
    var s2 := Loaded(s, ps);
    MallocTimesDirectMap(s2, KERNEL_STACK_PAGES, f);
    if HeapFrame(s2) <= f < HeapFrame(s2) + KERNEL_STACK_PAGES {
      HeapTakesAll(s2, KERNEL_STACK_PAGES, t2, f);
    }
    BackToCaller(s, ps, f);
  }

  lemma LoadedIs(s: Sys, ps: seq<Page>)
    ensures var (s1, c) := CreateUserMemory(s); Loaded(s, ps) == LoadPages(s1.(cur := c), ps)
  {
  }

  /** The caller's root has the direct map that the new one has. */
  lemma BackToCaller(s: Sys, ps: seq<Page>, f: nat)
    requires Inv(s) && CanLoad(s, ps) && f < 0x800_0000
    ensures DirectMapped(Load(s, ps).0, f) <==> DirectMapped(MallocTimes(Loaded(s, ps), KERNEL_STACK_PAGES), f)
  {
    hide CreateUserMemory; hide LoadPages; hide LoadFits; hide MallocTimes; hide MallocFits; hide CanLoad; hide Leaf;
    hide Inv; hide Free; hide Loaded; hide Load;
    LoadedFacts(s, ps);
    SlotOf(f);
    var s2 := Loaded(s, ps);
    MallocTimesSafe(s2, KERNEL_STACK_PAGES);
    var s3 := MallocTimes(s2, KERNEL_STACK_PAGES);
    KernelHalfAgrees(s3, s3.cur, s.cur, USER_PAGES + f);
  }

  // ---------------------------------------------------------------------------------
  // The first program
  // ---------------------------------------------------------------------------------

  lemma BootPages(frames: nat, kpages: nat, top: nat)
    requires BootFits(frames, kpages, top)
    ensures var s := Booted(frames, kpages, top);
            s.kpages == kpages && |s.info| == frames && FreeFrom(s.info, top + 1)
  {
    hide BootFrame; hide BootRole;
  }

  /** The first malloc after boot keeps the direct map if and only if the heap's pages end where the
      kernel's frames do. */
  lemma FirstMallocKeepsIff(frames: nat, kpages: nat, top: nat)
    requires BootFits(frames, kpages, top) && CanMalloc(Booted(frames, kpages, top))
    ensures (forall f: nat :: f < frames ==> DirectMapped(Malloc(Booted(frames, kpages, top)), f)) <==> top == kpages
  {
    hide Booted; hide Malloc; hide Inv; hide DirectMapped; hide CanMalloc; hide Free; hide FindFree; hide FreeFrom; hide BootFits;
    hide Missing;
    BootBounds(frames, kpages, top);
    var s := Booted(frames, kpages, top);
    BootInv(frames, kpages, top);
    BootPages(frames, kpages, top);
    MallocFreeFrom(s, top + 1);
    forall f: nat | f < frames
      ensures DirectMapped(Malloc(s), f) <==> f != HeapFrame(s) || top == kpages {
      BootDirectMapped(frames, kpages, top, f);
      SlotOf(f);
      MallocDirectMap(s, f);
    }
    var h: nat := kpages + 1;
    assert h < frames && h == HeapFrame(s);
    assert DirectMapped(Malloc(s), h) <==> top == kpages;
  }

  lemma BootBounds(frames: nat, kpages: nat, top: nat)
    requires BootFits(frames, kpages, top)
    ensures frames <= 0x800_0000 && kpages <= top < frames
  {
  }

  /** The first program loaded takes exactly six frames from the direct map, those right past the
      heap's PageCount; the first of them only if the heap's pages do not end where the kernel's
      frames do. */
  lemma FirstLoadDirectMapIff(frames: nat, kpages: nat, top: nat, segments: seq<Page>, f: nat)
    requires BootFits(frames, kpages, top) && CanLoad(Booted(frames, kpages, top), Program(segments)) && f < frames
    ensures DirectMapped(Load(Booted(frames, kpages, top), Program(segments)).0, f) <==>
              !(kpages + 1 <= f <= kpages + 6) || (f == kpages + 1 && top == kpages)
  {
    hide Booted; hide Inv; hide DirectMapped; hide CreateUserMemory; hide Load; hide CanLoad; hide FreeFrom; hide BootFits;
    BootBounds(frames, kpages, top);
    var s := Booted(frames, kpages, top);
    BootInv(frames, kpages, top);
    BootPages(frames, kpages, top);
    BootDirectMapped(frames, kpages, top, f);
    LoadDirectMapIff(s, Program(segments), top + 1, f);
  }

  lemma {:induction false} LoadPagesKeep(s: Sys, ps: seq<Page>, k: nat)
    requires Inv(s) && LoadFits(s, ps) && k < USER_PAGES && forall i :: 0 <= i < |ps| ==> ps[i].n != k
    ensures Leaf(LoadPages(s, ps).mem, s.cur, k) == Leaf(s.mem, s.cur, k)
    decreases |ps|
  {
    hide LoadPage; hide CanMapFresh; hide Inv; hide Leaf; hide FindFree; hide Free;
    if ps != [] {
      LoadPageFacts(s, ps[0]);
      forall i | 0 <= i < |ps[1..]| ensures ps[1..][i].n != k {
        assert ps[1..][i] == ps[i + 1];
      }
      LoadPagesKeep(LoadPage(s, ps[0]), ps[1..], k);
    }
  }

  /** The first page loaded is backed by the first free frame. */
  lemma FirstPageFrame(s: Sys, ps: seq<Page>)
    requires Inv(s) && LoadFits(s, ps) && ps != [] && DistinctPages(ps)
    ensures ps[0].n < USER_PAGES && Leaf(LoadPages(s, ps).mem, s.cur, ps[0].n).frame == FindFree(s.info)
  {
    hide LoadPage; hide CanMapFresh; hide Inv; hide Leaf; hide FindFree; hide Free;
    LoadPageFacts(s, ps[0]);
    forall i | 0 <= i < |ps[1..]| ensures ps[1..][i].n != ps[0].n {
      assert ps[1..][i] == ps[i + 1];
    }
    LoadPagesKeep(LoadPage(s, ps[0]), ps[1..], ps[0].n);
  }

  lemma BootHeapTable(frames: nat, kpages: nat, top: nat)
    requires BootFits(frames, kpages, top) && kpages + 1 < frames
    ensures var s := Booted(frames, kpages, top); Missing(s.mem, s.cur, HeapPage(s), 1) == 0
  {
    hide Booted; hide BootFits; hide Table; hide FirstPt;
    BootWalk(frames, kpages, top, kpages + 1);
    BootCur(frames, kpages, top);
    NothingMissing(Booted(frames, kpages, top).mem, ROOT, USER_PAGES + (kpages + 1), 1);
  }

  lemma BootCur(frames: nat, kpages: nat, top: nat)
    ensures Booted(frames, kpages, top).cur == ROOT && Booted(frames, kpages, top).kpages == kpages
  {
  }

  lemma FirstStackPage(frames: nat, kpages: nat, top: nat, segments: seq<Page>)
    requires BootFits(frames, kpages, top) && CanLoad(Booted(frames, kpages, top), Program(segments))
    requires DistinctPages(Program(segments))
    ensures var (s', c) := Load(Booted(frames, kpages, top), Program(segments));
            top + 2 < frames && Leaf(s'.mem, c, STACK_PAGE).frame == top + 2
  {
    hide Booted; hide Inv; hide CreateUserMemory; hide LoadPages; hide LoadFits; hide FreeFrom; hide BootFits; hide Leaf;
    hide FindFree; hide MallocTimes; hide MallocFits; hide DistinctPages; hide CanMalloc; hide Missing; hide Malloc; hide Free;
    var s, ps := Booted(frames, kpages, top), Program(segments);
    BootBounds(frames, kpages, top);
    BootInv(frames, kpages, top);
    BootPages(frames, kpages, top);
    MallocFreeFrom(s, top + 1);
    BootHeapTable(frames, kpages, top);
    CreateFreeFrom(s, top + 1);
    CreateFacts(s);
    var (s1, c) := CreateUserMemory(s);
    SameButCur(s1, c);
    var s1c := s1.(cur := c);
    FirstPageFrame(s1c, ps);
    LoadFitsFree(s1c, ps);
    TakenFirst(s1c.info, top + 2);
    LoadedFacts(s, ps);
    LoadedIs(s, ps);
    var s2 := LoadPages(s1c, ps);
    MallocTimesSafe(s2, KERNEL_STACK_PAGES);
  }

  lemma LoadFitsFree(s: Sys, ps: seq<Page>)
    requires LoadFits(s, ps) && ps != []
    ensures Free(s.info) != {}
  {
  }

  /** The stack page of the first program has the second frame past the kernel's; the heap has taken
      that frame from the direct map if and only if the kernel's frames end less than five past the
      heap's PageCount. */
  lemma FirstStackFrameIff(frames: nat, kpages: nat, top: nat, segments: seq<Page>)
    requires BootFits(frames, kpages, top) && CanLoad(Booted(frames, kpages, top), Program(segments))
    requires DistinctPages(Program(segments))
    ensures var (s', c) := Load(Booted(frames, kpages, top), Program(segments));
            && Leaf(s'.mem, c, STACK_PAGE).frame == top + 2
            && (!DirectMapped(s', top + 2) <==> top < kpages + 5)
  {
    hide Booted; hide Load; hide CanLoad; hide DirectMapped; hide Leaf; hide BootFits; hide DistinctPages;
    FirstStackPage(frames, kpages, top, segments);
    BootBounds(frames, kpages, top);
    FirstLoadDirectMapIff(frames, kpages, top, segments, top + 2);
  }
}
