/**
  The permission bits over whole runs: what every operation of the memory manager keeps, from boot on.
 */
module PermissionRuns {
  import opened Words
  import opened PageTables
  import opened AddressSpace
  import opened CopyOnWrite
  import opened Fork
  import opened MemoryRuns
  import opened CountedCopies
  import opened Teardown
  import opened Exits
  import opened Boot
  import opened Launch
  import opened Permissions

  // ---------------------------------------------------------------------------------
  // One entry, one frame
  // ---------------------------------------------------------------------------------

  lemma PokeKeeps(s: Sys, s': Sys, t: nat, i: nat, e: Word)
    requires Permitted(s) && t < |s.mem| && i < |s.mem[t]| && (s.role[t].Tab? ==> EntryOk(s.role[t], i, e))
    requires s'.role == s.role && s'.mem == Poke(s.mem, t, i, e)
    ensures Permitted(s')
  {
    hide EntryOk;
    forall f | 0 <= f < |s'.mem| ensures FrameOk(s'.role[f], s'.mem[f]) {
      assert FrameOk(s.role[f], s.mem[f]);
    }
  }

  lemma FillKeeps(s: Sys, s': Sys, f: nat, content: seq<Word>)
    requires Permitted(s) && f < |s.mem| && s'.mem == Fill(s.mem, f, content)
    requires |s'.role| == |s.role| && forall g :: 0 <= g < |s.role| && g != f ==> s'.role[g] == s.role[g]
    requires FrameOk(s'.role[f], content)
    ensures Permitted(s')
  {
    hide FrameOk;
  }

  /** What a new last entry of the walk for page n must be. */
  predicate LeafOk(n: nat, e: Word) {
    e.p ==> (e.u <==> n < USER_PAGES) && (e.w ==> !e.cow)
  }

  lemma SetLeafPermitted(s: Sys, n: nat, e: Word)
    requires Inv(s) && Permitted(s) && n < ALL_PAGES && LeafOk(n, e)
    ensures Permitted(SetLeaf(s, n, e))
  {
    hide LeavesOwned; hide KernelHalfShared; hide Linked; hide Permitted; hide UserSlot;
    TableRole(s.mem, s.role, s.cur, n, 1);
    SlotOf(s.cur, n, 1);
    if Table(s.mem, s.cur, n, 1).Some? {
      PokeKeeps(s, SetLeaf(s, n, e), Table(s.mem, s.cur, n, 1).value, Index(n, 1), e);
    } else {
      SamePermitted(s, SetLeaf(s, n, e));
    }
  }

  lemma SamePermitted(s: Sys, s': Sys)
    requires Permitted(s) && s'.mem == s.mem && s'.role == s.role
    ensures Permitted(s')
  {
    hide FrameOk;
  }

  lemma ZerosOk(role: Role)
    ensures FrameOk(role, Zeros())
  {
  }

  // ---------------------------------------------------------------------------------
  // Walks and mappings
  // ---------------------------------------------------------------------------------

  lemma CreatesPermitted(s: Sys, n: nat, level: nat)
    requires StepCreates(s, n, level) && Permitted(s)
    ensures Permitted(Ensure(s, Table(s.mem, s.cur, n, level + 1).value, Index(n, level + 1), WalkFlags(n)))
  {
    hide LeavesOwned; hide KernelHalfShared; hide Leaf; hide FrameOk; hide UserSlot; hide FindFree;
    TableRole(s.mem, s.role, s.cur, n, level + 1);
    SlotOf(s.cur, n, level + 1);
    var t, i, f := Table(s.mem, s.cur, n, level + 1).value, Index(n, level + 1), FindFree(s.info);
    var e := WalkFlags(n).(frame := f, p := true);
    EnsureHooks(s, t, i, WalkFlags(n));
    var s' := Ensure(s, t, i, WalkFlags(n));
    ZerosOk(s'.role[f]);
    var filled := s.(mem := Fill(s.mem, f, Zeros()), role := s'.role);
    FillKeeps(s, filled, f, Zeros());
    PokeKeeps(filled, s', t, i, e);
  }

  lemma {:induction false} EnsureToPermitted(s: Sys, n: nat, level: nat)
    requires Inv(s) && Permitted(s) && n < ALL_PAGES && 1 <= level <= 4 && |Free(s.info)| >= Missing(s.mem, s.cur, n, level)
    ensures Permitted(EnsureTo(s, n, level))
    decreases 4 - level
  {
    hide Inv; hide Leaf; hide Permitted; hide Extends; hide Ensure; hide Table; hide Free;
    EnsureToKeeps(s, n, level);
    if level < 4 && Table(s.mem, s.cur, n, level).None? {
      WalkStep(s, n, level);
      EnsureToPermitted(s, n, level + 1);
      CreatesPermitted(EnsureTo(s, n, level + 1), n, level);
    } else if level == 4 {
      assert EnsureTo(s, n, level) == s;
    }
  }

  lemma MapPermitted(s: Sys, n: nat, e: Word)
    requires Inv(s) && Permitted(s) && n < ALL_PAGES && |Free(s.info)| >= Missing(s.mem, s.cur, n, 1) && LeafOk(n, e)
    ensures Permitted(MapPage(s, n, e))
  {
    hide Permitted; hide EnsureTo; hide SetLeaf; hide LeafOk; hide Extends;
    EnsureToKeeps(s, n, 1);
    EnsureToPermitted(s, n, 1);
    SetLeafPermitted(EnsureTo(s, n, 1), n, e);
  }

  lemma AllocPermitted(s: Sys, n: nat, frame: nat, flags: Word, xd: bool)
    requires Inv(s) && Permitted(s) && CanAlloc(s, n, frame) && flags.u && (flags.w ==> !flags.cow)
    ensures Permitted(Alloc(s, n, frame, flags, xd))
  {
    hide LeavesOwned; hide KernelHalfShared; hide Linked; hide Leaf; hide MapPage; hide Permitted;
    ClaimInv(s, n, frame);
    var s1 := s.(info := s.info[frame := Claim(s.info[frame])]);
    SamePermitted(s, s1);
    MapPermitted(s1, n, NewEntry(frame, flags, xd));
    assert Alloc(s, n, frame, flags, xd) == MapPage(s1, n, NewEntry(frame, flags, xd));
  }

  lemma MallocPermitted(s: Sys)
    requires Inv(s) && Permitted(s) && CanMalloc(s)
    ensures Permitted(Malloc(s))
  {
    hide LeavesOwned; hide KernelHalfShared; hide Linked; hide Leaf; hide MapPage; hide Permitted; hide FindFree;
    ReserveInv(s);
    SamePermitted(s, Reserve(s));
    MapPermitted(Reserve(s), HeapPage(s), NewEntry(FindFree(s.info), KERNEL_FLAGS, true));
  }

  lemma {:induction false} MallocTimesPermitted(s: Sys, k: nat)
    requires Inv(s) && Permitted(s) && MallocFits(s, k)
    ensures Permitted(MallocTimes(s, k))
    decreases k
  {
    hide Malloc; hide Inv; hide Leaf; hide CanMalloc; hide Permitted; hide DataKept;
    if k > 0 {
      MallocFacts(s);
      MallocPermitted(s);
      MallocTimesPermitted(Malloc(s), k - 1);
    }
  }

  /** A new root's entries are those of the kernel half that the current root has. */
  lemma CreatePermitted(s: Sys)
    requires Inv(s) && Permitted(s) && CanMalloc(s)
    ensures Permitted(CreateUserMemory(s).0)
  {
    hide LeavesOwned; hide KernelHalfShared; hide Linked; hide Malloc; hide Permitted; hide UserSlot; hide FindFree;
    MallocKeeps(s);
    MallocPermitted(s);
    var s1 := Malloc(s);
    var c := CreateUserMemory(s).1;
    assert FrameOk(s1.role[s1.cur], s1.mem[s1.cur]) by {
      FrameOf(s1, s1.cur);
    }
    RootImageOk(s1.cur, c, s1.mem[s1.cur]);
    FillKeeps(s1, CreateUserMemory(s).0, c, RootImage(s1.mem[s1.cur]));
  }

  lemma FrameOf(s: Sys, f: nat)
    requires Permitted(s) && f < |s.mem|
    ensures FrameOk(s.role[f], s.mem[f])
  {
  }

  lemma RootImageOk(r: nat, c: nat, content: seq<Word>)
    requires |content| == ENTRIES && FrameOk(RootRole(r), content)
    ensures FrameOk(RootRole(c), RootImage(content))
  {
    var image := RootImage(content);
    forall i | 0 <= i < |image| ensures EntryOk(RootRole(c), i, image[i]) {
      assert EntryOk(RootRole(r), i, content[i]);
    }
  }

  // ---------------------------------------------------------------------------------
  // Sharing and unsharing
  // ---------------------------------------------------------------------------------

  lemma LeafIsOk(s: Sys, r: nat, n: nat)
    requires Inv(s) && Permitted(s) && IsRoot(s.role, r) && n < ALL_PAGES
    ensures LeafOk(n, Leaf(s.mem, r, n))
  {
    hide Inv; hide Permitted;
    WalkedOk(s, r, n, 1);
  }

  lemma ForkPagePermitted(s: Sys, r: nat, c: nat, n: nat)
    requires Inv(s) && Permitted(s) && CanShare(s, r, c, n)
    ensures Permitted(ForkPage(s, r, c, n))
  {
    hide Leaf; hide Inv; hide Permitted; hide Alloc; hide SetLeaf; hide CanAlloc; hide Retargets; hide DataKept; hide Missing; hide Free;
    var w := Leaf(s.mem, r, n);
    LeafIsOk(s, r, n);
    DowngradeFacts(s, r, c, n);
    SameButCur(s, r);
    SamePermitted(s, s.(cur := r));
    SetLeafPermitted(s.(cur := r), n, Shared(w));
    var s1 := Downgrade(s, r, n);
    SameButCur(s1, c);
    SamePermitted(s1, s1.(cur := c));
    AllocPermitted(s1.(cur := c), n, w.frame, Shared(w), false);
  }

  lemma {:induction false} ForkPagesPermitted(s: Sys, r: nat, c: nat, pages: seq<nat>)
    requires Inv(s) && Permitted(s) && Forkable(s, r, c, pages)
    ensures Permitted(ForkPages(s, r, c, pages))
    decreases |pages|
  {
    hide ForkPage; hide Leaf; hide Inv; hide Permitted; hide Fits; hide AllMapped;
    if pages != [] {
      ForkableNext(s, r, c, pages);
      ForkPagePermitted(s, r, c, pages[0]);
      ForkPagesPermitted(ForkPage(s, r, c, pages[0]), r, c, pages[1..]);
    }
  }

  lemma ForkPermitted(s: Sys, r: nat, g: Region)
    requires Inv(s) && Permitted(s) && CanFork(s, r, g)
    ensures Permitted(Fork.Fork(s, r, g).0)
  {
    hide *;
    var (s1, c) := Spawned(s, r);
    var pages := PagesOf(g);
    SpawnedFacts(s, r, g);
    SpawnedSpace(s, r);
    ForkUnfold(s, r, g);
    SpawnedPermitted(s, r);
    ForkPagesPermitted(s1, r, c, pages);
    var s2 := ForkPages(s1, r, c, pages);
    ForkedRoot(s1, r, c, pages);
    SameButCur(s2, r);
    SamePermitted(s2, s2.(cur := r));
    MallocTimesPermitted(s2.(cur := r), KERNEL_STACK_PAGES);
  }

  lemma SpawnedPermitted(s: Sys, r: nat)
    requires Inv(s) && Permitted(s) && IsRoot(s.role, r) && CanMalloc(s.(cur := r))
    ensures Permitted(Spawned(s, r).0)
  {
    hide Inv; hide Permitted; hide CanMalloc; hide CreateUserMemory;
    SameButCur(s, r);
    SamePermitted(s, s.(cur := r));
    CreatePermitted(s.(cur := r));
  }

  lemma CowPermitted(s: Sys, n: nat)
    requires Inv(s) && Permitted(s) && CanResolve(s, n)
    ensures Permitted(CowFault(s, n))
  {
    assert IsRoot(s.role, s.cur);
    hide Inv; hide Permitted; hide Leaf; hide SetLeaf; hide EnsureTo; hide Mappers; hide FindFree;
    var w := Leaf(s.mem, s.cur, n);
    LeafIsOk(s, s.cur, n);
    if InfoAt(s.info, w.frame).refcount <= 1 {
      WalkIsIdle(s, n);
      SetLeafPermitted(s, n, Unshared(w, w.frame));
    } else {
      CowCopyIsRewrite(s, n);
      CopyTarget(s, n);
      var f := FindFree(s.info);
      CopiedPermitted(s, w.frame, f);
      hide CowFault; hide Copied;
      SetLeafPermitted(Copied(s, w.frame, f), n, Unshared(w, f));
    }
  }

  lemma CopiedPermitted(s: Sys, g: nat, f: nat)
    requires Inv(s) && Permitted(s) && UserFrame(s, g) && s.info[g].refcount >= 2 && f in Free(s.info)
    ensures Inv(Copied(s, g, f)) && Permitted(Copied(s, g, f))
  {
    hide Leaf; hide Permitted; hide LeavesOwned; hide KernelHalfShared; hide Linked;
    CopiedFacts(s, g, f);
    assert s.role[f] == Plain;
    FillKeeps(s, Copied(s, g, f), f, Content(s.mem, g));
  }

  lemma CountedCowPermitted(s: Sys, n: nat)
    requires Inv(s) && Permitted(s) && CanResolve(s, n)
    ensures Permitted(CountedCowFault(s, n))
  {
    hide CowFault; hide Leaf; hide Permitted; hide Inv; hide CanResolve;
    CowPermitted(s, n);
    SamePermitted(CowFault(s, n), CountedCowFault(s, n));
  }

  lemma WritePermitted(s: Sys, r: nat, n: nat, i: nat, v: Word)
    requires Inv(s) && Permitted(s) && CanWrite(s, r, n, i)
    ensures Permitted(UserWrite(s, r, n, i, v))
  {
    hide Leaf; hide Permitted; hide Linked; hide LeavesOwned; hide KernelHalfShared;
    UserWriteFacts(s, r, n, i, v);
    PokeKeeps(s, UserWrite(s, r, n, i, v), Leaf(s.mem, r, n).frame, i, v);
  }

  // ---------------------------------------------------------------------------------
  // Faults, programs, exits
  // ---------------------------------------------------------------------------------

  lemma MapFreshPermitted(s: Sys, n: nat, xd: bool)
    requires Inv(s) && Permitted(s) && CanMapFresh(s, n)
    ensures Permitted(MapFresh(s, n, xd))
  {
    hide Inv; hide Permitted; hide Alloc; hide CanAlloc; hide FindFree;
    AllocPermitted(s, n, FindFree(s.info), USER_FLAGS, xd);
  }

  lemma LoadPagePermitted(s: Sys, p: Page)
    requires Inv(s) && Permitted(s) && CanMapFresh(s, p.n)
    ensures Permitted(LoadPage(s, p))
  {
    hide Inv; hide Permitted; hide Alloc; hide CanAlloc; hide FindFree;
    AllocPermitted(s, p.n, FindFree(s.info), PageFlags(p), p.xd);
  }

  lemma {:induction false} LoadPagesPermitted(s: Sys, ps: seq<Page>)
    requires Inv(s) && Permitted(s) && LoadFits(s, ps)
    ensures Permitted(LoadPages(s, ps))
    decreases |ps|
  {
    hide LoadPage; hide CanMapFresh; hide Inv; hide Leaf; hide Free; hide FindFree; hide Accounted; hide Permitted;
    if ps != [] {
      LoadPageFacts(s, ps[0]);
      LoadPagePermitted(s, ps[0]);
      LoadPagesPermitted(LoadPage(s, ps[0]), ps[1..]);
    }
  }

  lemma {:induction false} GrowPermitted(s: Sys, n: nat, k: nat)
    requires Inv(s) && Permitted(s) && GrowFits(s, n, k)
    ensures Permitted(GrowStack(s, n, k))
    decreases k
  {
    hide MapFresh; hide CanMapFresh; hide Inv; hide Permitted;
    if k > 0 {
      MapFreshInv(s, n, true);
      MapFreshPermitted(s, n, true);
      GrowPermitted(MapFresh(s, n, true), n + 1, k - 1);
    }
  }

  lemma MapFreshInv(s: Sys, n: nat, xd: bool)
    requires Inv(s) && CanMapFresh(s, n)
    ensures Inv(MapFresh(s, n, xd))
  {
    hide Inv; hide Alloc; hide CanAlloc; hide FindFree; hide Retargets; hide OthersKept;
    AllocIsLocal(s, n, FindFree(s.info), USER_FLAGS, xd);
  }

  lemma DemandPermitted(s: Sys, r: nat, g: Region, n: nat)
    requires Inv(s) && Permitted(s) && CanFault(s, r, g, n)
    ensures Permitted(DemandFault(s, r, g, n).0)
  {
    hide Inv; hide Permitted; hide EnsureTo; hide GrowStack; hide MapFresh; hide GrowFits; hide CanMapFresh; hide InStackWindow;
    hide StackGap; hide Missing; hide Free; hide Leaf; hide Extends;
    SameButCur(s, r);
    SamePermitted(s, s.(cur := r));
    EnsureToKeeps(s.(cur := r), n, 1);
    EnsureToPermitted(s.(cur := r), n, 1);
    var s1 := EnsureTo(s.(cur := r), n, 1);
    if InStackWindow(g, n) {
      GrowPermitted(s1, n, StackGap(g, n));
    } else {
      MapFreshPermitted(s1, n, false);
    }
  }

  lemma LoadPermitted(s: Sys, ps: seq<Page>)
    requires Inv(s) && Permitted(s) && CanLoad(s, ps)
    ensures Permitted(Load(s, ps).0)
  {
    hide CreateUserMemory; hide LoadPages; hide LoadFits; hide MallocTimes; hide MallocFits; hide CanMalloc; hide Leaf; hide Inv;
    hide Permitted; hide Accounted; hide Free; hide UserLeavesKept; hide DataKept; hide Counted; hide Safe; hide Views;
    CreateFacts(s);
    CreatePermitted(s);
    var (s1, c) := CreateUserMemory(s);
    SameButCur(s1, c);
    SamePermitted(s1, s1.(cur := c));
    LoadPagesAccount(s1.(cur := c), ps);
    LoadPagesPermitted(s1.(cur := c), ps);
    var s2 := LoadPages(s1.(cur := c), ps);
    MallocTimesPermitted(s2, KERNEL_STACK_PAGES);
    SamePermitted(MallocTimes(s2, KERNEL_STACK_PAGES), Load(s, ps).0);
  }

  lemma ExitPermitted(s: Sys, root: nat, kernelRoot: nat)
    requires Inv(s) && Permitted(s) && CanExit(s, root, kernelRoot)
    ensures Permitted(Exit(s, root, kernelRoot))
  {
    hide Torn; hide LeavesOwned; hide KernelHalfShared; hide Linked;
    TornFrames(s, root);
    var s' := Exit(s, root, kernelRoot);
    forall f | 0 <= f < |s'.mem| ensures FrameOk(s'.role[f], s'.mem[f]) {
      assert FrameOk(s.role[f], s.mem[f]);
    }
  }

  /** The direct map's tables let the kernel through and nobody else. */
  lemma BootPermitted(frames: nat, kpages: nat, top: nat)
    requires BootFits(frames, kpages, top)
    ensures Permitted(Booted(frames, kpages, top))
  {
    var s := Booted(frames, kpages, top);
    hide Tables; hide Directories;
    forall f | 0 <= f < frames ensures FrameOk(s.role[f], s.mem[f]) {
      BootFrameOk(frames, f);
    }
  }

  lemma BootFrameOk(frames: nat, f: nat)
    ensures FrameOk(BootRole(frames, f), BootFrame(frames, f))
  {
    hide Tables; hide Directories; hide Row;
    var role, pt := BootRole(frames, f), FirstPt(frames);
    BootRoot(frames);
    forall i | 0 <= i < ENTRIES && role.Tab? ensures EntryOk(role, i, BootFrame(frames, f)[i]) {
      RowAt(FIRST_PD, Directories(frames), i);
      if FIRST_PD <= f < pt {
        RowAt(pt + 512 * (f - FIRST_PD), Tables(frames) - 512 * (f - FIRST_PD), i);
      } else if pt <= f {
        RowAt(512 * (f - pt), frames - 512 * (f - pt), i);
      }
    }
  }

  // ---------------------------------------------------------------------------------
  // Runs
  // ---------------------------------------------------------------------------------

  lemma StepPermitted(w: World, st: Step, counted: bool)
    requires WorldInv(w) && Permitted(w.sys) && (if counted then Possible(w, st) else Enabled(w, st))
    ensures Permitted((if counted then ExecCounted(w, st) else Exec(w, st)).sys)
  {
    assert Inv(w.sys);
    hide Inv; hide WorldInv; hide Permitted; hide ExecCounted; hide Exec; hide Possible; hide Enabled;
    match st
    case Write(r, n, i, v) => WriteStepPermitted(w, st, counted);
    case Cow(r, addr) => CowStepPermitted(w, r, addr, counted);
    case Fault(r, addr) => FaultStepPermitted(w, st, counted);
    case Spawn(r) => SpawnStepPermitted(w, st, counted);
    case KernelPage => KernelStepPermitted(w, counted);
  }

  lemma WriteStepPermitted(w: World, st: Step, counted: bool)
    requires Inv(w.sys) && Permitted(w.sys) && st.Write? && (if counted then Possible(w, st) else Enabled(w, st))
    ensures Permitted((if counted then ExecCounted(w, st) else Exec(w, st)).sys)
  {
    hide Inv; hide Permitted; hide UserWrite; hide CanWrite;
    WritePermitted(w.sys, st.r, st.n, st.i, st.v);
  }

  lemma FaultStepPermitted(w: World, st: Step, counted: bool)
    requires Inv(w.sys) && Permitted(w.sys) && st.Fault? && (if counted then Possible(w, st) else Enabled(w, st))
    ensures Permitted((if counted then ExecCounted(w, st) else Exec(w, st)).sys)
  {
    hide Inv; hide Permitted; hide DemandFault; hide CanFault; hide Kills;
    DemandPermitted(w.sys, st.r, w.procs[st.r], st.addr / PAGE_SIZE);
  }

  lemma SpawnStepPermitted(w: World, st: Step, counted: bool)
    requires Inv(w.sys) && Permitted(w.sys) && st.Spawn? && (if counted then Possible(w, st) else Enabled(w, st))
    ensures Permitted((if counted then ExecCounted(w, st) else Exec(w, st)).sys)
  {
    hide Inv; hide Permitted; hide CanFork; hide Fork.Fork; hide CountedPages;
    ForkPermitted(w.sys, st.r, w.procs[st.r]);
  }

  lemma KernelStepPermitted(w: World, counted: bool)
    requires Inv(w.sys) && Permitted(w.sys) && (if counted then Possible(w, KernelPage) else Enabled(w, KernelPage))
    ensures Permitted((if counted then ExecCounted(w, KernelPage) else Exec(w, KernelPage)).sys)
  {
    hide Inv; hide Permitted; hide CanMalloc; hide Malloc;
    MallocPermitted(w.sys);
  }

  lemma CowStepPermitted(w: World, r: nat, addr: nat, counted: bool)
    requires WorldInv(w) && Permitted(w.sys)
    requires if counted then Possible(w, Cow(r, addr)) else Enabled(w, Cow(r, addr))
    ensures Permitted((if counted then ExecCounted(w, Cow(r, addr)) else Exec(w, Cow(r, addr))).sys)
  {
    var n := addr / PAGE_SIZE;
    assert IsRoot(w.sys.role, r) && Inv(w.sys);
    hide Inv; hide Permitted; hide Kills; hide CowFault; hide CountedCowFault; hide CanResolve; hide Mappers; hide Views;
    SameButCur(w.sys, r);
    SamePermitted(w.sys, w.sys.(cur := r));
    CowPermitted(w.sys.(cur := r), n);
    CountedCowPermitted(w.sys.(cur := r), n);
  }

  lemma EventPermitted(w: World, ev: Event, counted: bool)
    requires Good(w, counted) && CanHappen(w, ev, counted) && Permitted(w.sys)
    ensures Permitted(Happen(w, ev, counted).sys)
  {
    assert Inv(w.sys);
    hide Load; hide CanLoad; hide Exit; hide CanExit; hide ExecCounted; hide Exec; hide Possible; hide Enabled; hide Permitted; hide Inv;
    hide WorldInv;
    match ev
    case Start(segments) => LoadPermitted(w.sys, Program(segments));
    case Do(st) => StepPermitted(w, st, counted);
    case End(r) => ExitPermitted(w.sys, r, ROOT);
  }

  lemma {:induction false} HistoryPermitted(w: World, evs: seq<Event>, counted: bool)
    requires Good(w, counted) && CanRun(w, evs, counted) && Permitted(w.sys)
    ensures Good(Run(w, evs, counted), counted) && Permitted(Run(w, evs, counted).sys)
    decreases |evs|
  {
    hide Good; hide CanHappen; hide Happen; hide Permitted; hide EagerEvent; hide Observed;
    if evs != [] {
      HappenRefines(w, evs[0], counted);
      EventPermitted(w, evs[0], counted);
      HistoryPermitted(Happen(w, evs[0], counted), evs[1..], counted);
    }
  }

  /** From boot, over every run: the processor lets a process read exactly the pages it has, write and
      execute exactly those whose last entry allows it, and touch no page of the kernel's half.  What
      it lets it write is mapped by nobody else. */
  lemma BootedRunPermits(frames: nat, kpages: nat, top: nat, evs: seq<Event>, counted: bool, r: nat, n: nat)
    requires BootFits(frames, kpages, top) && CanRun(World(Booted(frames, kpages, top), map[]), evs, counted)
    requires var s := Run(World(Booted(frames, kpages, top), map[]), evs, counted).sys; IsRoot(s.role, r) && n < ALL_PAGES
    ensures var s := Run(World(Booted(frames, kpages, top), map[]), evs, counted).sys; var e := Leaf(s.mem, r, n);
            && r in Views(s)
            && (UserReads(s.mem, r, n) <==> n in Views(s)[r])
            && (UserWrites(s.mem, r, n) <==> n in Views(s)[r] && e.w)
            && (UserExecutes(s.mem, r, n) <==> n in Views(s)[r] && !e.xd)
            && (UserWrites(s.mem, r, n) ==> !e.cow && Mappers(s, e.frame) == {(r, n)})
  {
    BootOk(frames, kpages, top);
    BootPermitted(frames, kpages, top);
    ExactIsStrict(Booted(frames, kpages, top));
    var w := World(Booted(frames, kpages, top), map[]);
    hide *;
    GoodStart(w, counted);
    HistoryPermitted(w, evs, counted);
    UserAccess(Run(w, evs, counted), counted, r, n);
  }

  lemma GoodStart(w: World, counted: bool)
    requires WorldInv(w) && Strict(w.sys)
    ensures Good(w, counted)
  {
    hide WorldInv; hide Strict;
  }

  lemma UserAccess(w: World, counted: bool, r: nat, n: nat)
    requires Good(w, counted) && Permitted(w.sys) && IsRoot(w.sys.role, r) && n < ALL_PAGES
    ensures var s := w.sys; var e := Leaf(s.mem, r, n);
            && r in Views(s)
            && (UserReads(s.mem, r, n) <==> n in Views(s)[r])
            && (UserWrites(s.mem, r, n) <==> n in Views(s)[r] && e.w)
            && (UserExecutes(s.mem, r, n) <==> n in Views(s)[r] && !e.xd)
            && (UserWrites(s.mem, r, n) ==> !e.cow && Mappers(s, e.frame) == {(r, n)})
  {
    assert Inv(w.sys) && Exclusive(w.sys);
    hide Inv; hide Permitted; hide Leaf; hide UserReads; hide UserWrites; hide UserExecutes; hide Mappers; hide Good; hide Strict;
    AccessIff(w.sys, r, n);
    ViewOf(w.sys, r);
  }
}
