/**
  What the faults that map pages do to pages already mapped (HandlePageFault in
  src/kernel/drivers/ErrorHandling/Exceptions.c): the handler does not look, so a page in its
  way is replaced.
 */
module Faults {
  import opened Words
  import opened PageTables
  import opened AddressSpace
  import opened CopyOnWrite
  import opened Fork
  import opened MemoryRuns

  /** None of the size pages from n on is mapped in r. */
  ghost predicate RangeUnmapped(s: Sys, r: nat, n: nat, size: nat) {
    forall k: nat :: n <= k < n + size && k < USER_PAGES ==> !Leaf(s.mem, r, k).p
  }

  // ---------------------------------------------------------------------------------
  // Translations
  // ---------------------------------------------------------------------------------

  /** In s' the size pages of r from n on name frames that were free in s, and hold what those
      held; its other user pages are as they were. */
  ghost predicate Replaced(s: Sys, s': Sys, r: nat, n: nat, size: nat) {
    && n + size <= USER_PAGES && IdleKept(s, s')
    && (forall k: nat :: n <= k < n + size ==> FreshEntry(Leaf(s'.mem, r, k)) && Borrowed(s, s', Leaf(s'.mem, r, k).frame))
    && (forall k: nat :: k < USER_PAGES && !(n <= k < n + size) ==> Leaf(s'.mem, r, k) == Leaf(s.mem, r, k))
  }

  predicate FreshEntry(w: Word) {
    w.p && w.w && !w.cow
  }

  /** A user frame of s' that was free in s, its content untouched. */
  ghost predicate Borrowed(s: Sys, s': Sys, f: nat) {
    f in Free(s.info) && UserFrame(s', f) && Content(s'.mem, f) == Content(s.mem, f)
  }

  /** Frames still free were free before; they and user frames hold what they held. */
  ghost predicate IdleKept(s: Sys, s': Sys) {
    && Free(s'.info) <= Free(s.info)
    && (forall f :: f in Free(s'.info) ==> Content(s'.mem, f) == Content(s.mem, f))
    && (forall f: nat :: UserFrame(s, f) ==> UserFrame(s', f) && Content(s'.mem, f) == Content(s.mem, f))
  }

  lemma KeptIsIdle(s: Sys, s': Sys, frame: nat)
    requires Inv(s) && Inv(s') && OthersKept(s, s', frame) && frame < |s.mem| && DataKept(s, s') && Free(s'.info) <= Free(s.info) - {frame}
    requires s'.info[frame].used && !s'.info[frame].kernel && !s'.info[frame].dirty && s'.role[frame] == Plain
    ensures IdleKept(s, s')
  {
    hide Tree; hide LeavesOwned; hide KernelHalfShared;
    forall f: nat | f < |s.mem| && f != frame ensures f in Free(s'.info) ==> Content(s'.mem, f) == Content(s.mem, f)
      ensures UserFrame(s, f) ==> UserFrame(s', f)
    {
      assert Kept(s, s', f);
    }
  }

  lemma MapFreshReplaces(s: Sys, n: nat, xd: bool)
    requires Inv(s) && CanMapFresh(s, n)
    ensures var s' := MapFresh(s, n, xd); Inv(s') && s'.cur == s.cur && Replaced(s, s', s.cur, n, 1)
  {
    assert IsRoot(s.role, s.cur) && n < USER_PAGES && |s.mem| == |s.info|;
    FindFreeSpec(s.info);
    hide Alloc; hide Inv; hide Leaf; hide CanAlloc; hide FindFree; hide DataKept; hide Free; hide IdleKept;
    var f := FindFree(s.info);
    var s' := MapFresh(s, n, xd);
    AllocFacts(s, n, f, USER_FLAGS, xd);
    AllocIsLocal(s, n, f, USER_FLAGS, xd);
    MappedFrame(s', s.cur, n);
    KeptIsIdle(s, s', f);
  }

  lemma ReplacedJoin(s: Sys, s1: Sys, s2: Sys, r: nat, n: nat, k: nat)
    requires k > 0 && Replaced(s, s1, r, n, 1) && Replaced(s1, s2, r, n + 1, k - 1)
    ensures Replaced(s, s2, r, n, k)
  {
    hide Leaf; hide Free; hide UserFrame; hide Content;
    IdleJoin(s, s1, s2);
    forall j: nat | n <= j < n + k ensures FreshEntry(Leaf(s2.mem, r, j)) && Borrowed(s, s2, Leaf(s2.mem, r, j).frame) {
      if j == n {
        assert Borrowed(s, s1, Leaf(s1.mem, r, n).frame);
      } else {
        assert Borrowed(s1, s2, Leaf(s2.mem, r, j).frame);
      }
    }
  }

  lemma IdleJoin(s: Sys, s1: Sys, s2: Sys)
    requires IdleKept(s, s1) && IdleKept(s1, s2)
    ensures IdleKept(s, s2)
  {
    hide Free; hide UserFrame; hide Content;
  }

  lemma IdleReflexive(s: Sys)
    ensures IdleKept(s, s)
  {
  }

  lemma {:induction false} GrowStackReplaces(s: Sys, n: nat, k: nat)
    requires Inv(s) && GrowFits(s, n, k) && n + k <= USER_PAGES
    ensures var s' := GrowStack(s, n, k); Inv(s') && s'.cur == s.cur && Replaced(s, s', s.cur, n, k)
    decreases k
  {
    hide MapFresh; hide Inv; hide CanMapFresh; hide Leaf; hide Free; hide IdleKept; hide Borrowed;
    if k == 0 {
      IdleReflexive(s);
    } else {
      var s1 := MapFresh(s, n, true);
      MapFreshReplaces(s, n, true);
      GrowStackReplaces(s1, n + 1, k - 1);
      ReplacedJoin(s, s1, GrowStack(s, n, k), s.cur, n, k);
    }
  }

  lemma WalkReplacesNone(s: Sys, r: nat, n: nat)
    requires Inv(s) && IsRoot(s.role, r) && n < USER_PAGES && |Free(s.info)| >= Missing(s.mem, r, n, 1)
    ensures var s1 := EnsureTo(s.(cur := r), n, 1);
            && Inv(s1) && s1.cur == r && IdleKept(s, s1)
            && forall k: nat :: k < USER_PAGES ==> Leaf(s1.mem, r, k) == Leaf(s.mem, r, k)
  {
    hide Leaf; hide Linked; hide LeavesOwned; hide KernelHalfShared; hide EnsureTo; hide IdleKept;
    SameButCur(s, r);
    var s0 := s.(cur := r);
    EnsureToKeeps(s0, n, 1);
    SameRoots(s0, EnsureTo(s0, n, 1));
    WalkIsIdleKept(s0, EnsureTo(s0, n, 1));
    hide Inv;
    IdleSame(s, s0, EnsureTo(s0, n, 1));
  }

  lemma WalkIsIdleKept(s: Sys, s': Sys)
    requires Inv(s) && Inv(s') && Extends(s, s') && Free(s'.info) <= Free(s.info)
    ensures IdleKept(s, s')
  {
    hide Tree; hide LeavesOwned; hide KernelHalfShared; hide Leaf;
    forall f: nat | f < |s.mem|
      ensures f in Free(s'.info) ==> Content(s'.mem, f) == Content(s.mem, f)
      ensures UserFrame(s, f) ==> UserFrame(s', f) && Content(s'.mem, f) == Content(s.mem, f)
    {
      assert Kept(s, s', f);
    }
  }

  lemma IdleSame(s: Sys, s0: Sys, s': Sys)
    requires s0.mem == s.mem && s0.info == s.info && s0.role == s.role && IdleKept(s0, s')
    ensures IdleKept(s, s')
  {
  }

  lemma ReplacedAfterWalk(s: Sys, s1: Sys, s2: Sys, r: nat, n: nat, size: nat)
    requires Replaced(s1, s2, r, n, size) && IdleKept(s, s1)
    requires forall k: nat :: k < USER_PAGES ==> Leaf(s1.mem, r, k) == Leaf(s.mem, r, k)
    ensures Replaced(s, s2, r, n, size)
  {
    hide Leaf; hide Free; hide UserFrame; hide Content;
    IdleJoin(s, s1, s2);
    forall j: nat | n <= j < n + size ensures Borrowed(s, s2, Leaf(s2.mem, r, j).frame) {
      assert Borrowed(s1, s2, Leaf(s2.mem, r, j).frame);
    }
  }

  // ---------------------------------------------------------------------------------
  // A fault, page by page
  // ---------------------------------------------------------------------------------

  /** The state once a fault has mapped the first j of its pages. */
  function Progress(s: Sys, r: nat, g: Region, n: nat, j: nat): Sys {
    var s1 := EnsureTo(s.(cur := r), n, 1);
    if InStackWindow(g, n) then GrowStack(s1, n, j) else if j == 0 then s1 else MapFresh(s1, n, false)
  }

  /** A fault on a page that is not CoW, for the first j pages of which memory lasts. */
  ghost predicate LastsFor(s: Sys, r: nat, g: Region, n: nat, j: nat) {
    && IsRoot(s.role, r) && n < USER_PAGES && !Leaf(s.mem, r, n).cow
    && |Free(s.info)| >= Missing(s.mem, r, n, 1) && j <= FaultSize(g, n)
    && var s1 := EnsureTo(s.(cur := r), n, 1);
       if InStackWindow(g, n) then GrowFits(s1, n, j) else j == 0 || CanMapFresh(s1, n)
  }

  lemma WholeFault(s: Sys, r: nat, g: Region, n: nat)
    ensures CanFault(s, r, g, n) <==> LastsFor(s, r, g, n, FaultSize(g, n))
    ensures DemandFault(s, r, g, n).0 == Progress(s, r, g, n, FaultSize(g, n))
  {
    hide EnsureTo; hide GrowStack; hide MapFresh; hide GrowFits; hide CanMapFresh; hide Leaf; hide Missing; hide Free;
    hide StackGap; hide InStackWindow;
  }

  /** A fault maps its pages to frames that were free, whatever was there before. */
  lemma FaultReplaces(s: Sys, r: nat, g: Region, n: nat, j: nat)
    requires Inv(s) && LastsFor(s, r, g, n, j)
    ensures var s' := Progress(s, r, g, n, j); Inv(s') && s'.cur == r && Replaced(s, s', r, n, j)
  {
    hide EnsureTo; hide Inv; hide Leaf; hide Free; hide Replaced; hide IdleKept; hide GrowStack; hide MapFresh; hide GrowFits;
    hide CanMapFresh; hide Missing; hide InStackWindow; hide StackGap;
    WalkReplacesNone(s, r, n);
    var s1 := EnsureTo(s.(cur := r), n, 1);
    if InStackWindow(g, n) {
      GrowInRange(s1, n, j);
      GrowStackReplaces(s1, n, j);
    } else if j == 0 {
      NoneReplaced(s1, r, n);
    } else {
      MapFreshReplaces(s1, n, false);
    }
    ReplacedAfterWalk(s, s1, Progress(s, r, g, n, j), r, n, j);
  }

  lemma NoneReplaced(s: Sys, r: nat, n: nat)
    requires n < USER_PAGES
    ensures Replaced(s, s, r, n, 0)
  {
    hide Leaf;
    IdleReflexive(s);
  }

  lemma DemandFaultReplaces(s: Sys, r: nat, g: Region, n: nat)
    requires Inv(s) && CanFault(s, r, g, n)
    ensures var s' := DemandFault(s, r, g, n).0; Inv(s') && s'.cur == r && Replaced(s, s', r, n, FaultSize(g, n))
  {
    hide Inv; hide Replaced; hide Progress; hide LastsFor; hide DemandFault; hide CanFault;
    WholeFault(s, r, g, n);
    FaultReplaces(s, r, g, n, FaultSize(g, n));
  }

  /** However far it has got, a fault has kept every page the process has exactly when none of
      those it has mapped was one of them: a page in the way is replaced by another frame, and what
      it held is lost. */
  lemma FaultKeepsPagesIff(s: Sys, r: nat, g: Region, n: nat, j: nat)
    requires Inv(s) && LastsFor(s, r, g, n, j)
    ensures var s' := Progress(s, r, g, n, j);
            (forall k: nat :: k < USER_PAGES && Leaf(s.mem, r, k).p ==> Leaf(s'.mem, r, k) == Leaf(s.mem, r, k))
            <==> RangeUnmapped(s, r, n, j)
  {
    var s' := Progress(s, r, g, n, j);
    FaultReplaces(s, r, g, n, j);
    assert IsRoot(s.role, r);
    hide Progress; hide LastsFor; hide Leaf;
    forall k: nat | n <= k < n + j && k < USER_PAGES && Leaf(s.mem, r, k).p
      ensures Leaf(s'.mem, r, k).frame != Leaf(s.mem, r, k).frame
    {
      MappedNotFree(s, r, k);
    }
  }

  lemma MappedNotFree(s: Sys, r: nat, k: nat)
    requires Inv(s) && IsRoot(s.role, r) && k < USER_PAGES && Leaf(s.mem, r, k).p
    ensures Leaf(s.mem, r, k).frame !in Free(s.info)
  {
    hide Leaf;
    MappedFrame(s, r, k);
  }

  // ---------------------------------------------------------------------------------
  // Reference accounting
  // ---------------------------------------------------------------------------------

  lemma MapFreshAccount(s: Sys, n: nat, xd: bool)
    requires Inv(s) && CanMapFresh(s, n)
    ensures Accounted(s, MapFresh(s, n, xd), !Leaf(s.mem, s.cur, n).p)
  {
    hide Alloc; hide Inv; hide Leaf; hide CanAlloc; hide FindFree; hide Accounted;
    AllocAccount(s, n, FindFree(s.info), USER_FLAGS, xd);
  }

  lemma {:induction false} GrowStackAccount(s: Sys, n: nat, k: nat)
    requires Inv(s) && GrowFits(s, n, k) && n + k <= USER_PAGES
    ensures Accounted(s, GrowStack(s, n, k), RangeUnmapped(s, s.cur, n, k))
    decreases k
  {
    hide MapFresh; hide Inv; hide CanMapFresh; hide Leaf; hide Accounted; hide IdleKept; hide Borrowed; hide Mappers;
    if k == 0 {
      SameAccount(s, s);
    } else {
      var s1 := MapFresh(s, n, true);
      MapFreshReplaces(s, n, true);
      MapFreshAccount(s, n, true);
      GrowStackAccount(s1, n + 1, k - 1);
      AccountedJoin(s, s1, GrowStack(s, n, k), !Leaf(s.mem, s.cur, n).p, RangeUnmapped(s1, s.cur, n + 1, k - 1));
      RangeSplit(s, s1, s.cur, n, k);
    }
  }

  lemma RangeSplit(s: Sys, s1: Sys, r: nat, n: nat, k: nat)
    requires k > 0 && n < USER_PAGES && Replaced(s, s1, r, n, 1)
    ensures RangeUnmapped(s, r, n, k) <==> !Leaf(s.mem, r, n).p && RangeUnmapped(s1, r, n + 1, k - 1)
  {
    hide Leaf; hide IdleKept; hide Borrowed;
    if RangeUnmapped(s1, r, n + 1, k - 1) && !Leaf(s.mem, r, n).p {
      forall j: nat | n <= j < n + k && j < USER_PAGES ensures !Leaf(s.mem, r, j).p {
        if j > n {
          assert Leaf(s1.mem, r, j) == Leaf(s.mem, r, j);
        }
      }
    }
    if RangeUnmapped(s, r, n, k) {
      forall j: nat | n + 1 <= j < n + k && j < USER_PAGES ensures !Leaf(s1.mem, r, j).p {
        assert Leaf(s1.mem, r, j) == Leaf(s.mem, r, j);
      }
    }
  }

  lemma WalkAccount(s: Sys, r: nat, n: nat)
    requires Inv(s) && IsRoot(s.role, r) && n < USER_PAGES && |Free(s.info)| >= Missing(s.mem, r, n, 1)
    ensures Accounted(s, EnsureTo(s.(cur := r), n, 1), true)
  {
    hide EnsureTo; hide Leaf; hide Linked; hide LeavesOwned; hide KernelHalfShared; hide Mappers; hide Accounted; hide Missing; hide Free;
    SameButCur(s, r);
    var s0 := s.(cur := r);
    EnsureToKeeps(s0, n, 1);
    var s1 := EnsureTo(s0, n, 1);
    SameRoots(s0, s1);
    SameLeaves(s0, s1);
    forall g | 0 <= g < |s0.info| ensures s1.info[g].refcount == s0.info[g].refcount {
      assert Kept(s0, s1, g);
    }
    SameAccount(s, s1);
  }

  lemma FaultAccount(s: Sys, r: nat, g: Region, n: nat, j: nat)
    requires Inv(s) && LastsFor(s, r, g, n, j)
    ensures Accounted(s, Progress(s, r, g, n, j), RangeUnmapped(s, r, n, j))
  {
    hide EnsureTo; hide Inv; hide Leaf; hide Free; hide IdleKept; hide GrowStack; hide MapFresh; hide GrowFits; hide CanMapFresh;
    hide Missing; hide Accounted; hide InStackWindow; hide StackGap; hide Mappers;
    WalkAccount(s, r, n);
    WalkReplacesNone(s, r, n);
    var s1 := EnsureTo(s.(cur := r), n, 1);
    assert RangeUnmapped(s1, r, n, j) <==> RangeUnmapped(s, r, n, j);
    if InStackWindow(g, n) {
      GrowInRange(s1, n, j);
      GrowStackAccount(s1, n, j);
    } else if j == 0 {
      SameAccount(s1, s1);
    } else {
      MapFreshAccount(s1, n, false);
      assert RangeUnmapped(s1, r, n, 1) <==> !Leaf(s1.mem, r, n).p;
    }
    AccountedJoin(s, s1, Progress(s, r, g, n, j), true, RangeUnmapped(s1, r, n, j));
  }

  lemma DemandFaultAccount(s: Sys, r: nat, g: Region, n: nat)
    requires Inv(s) && CanFault(s, r, g, n)
    ensures Accounted(s, DemandFault(s, r, g, n).0, RangeUnmapped(s, r, n, FaultSize(g, n)))
  {
    hide Inv; hide Progress; hide LastsFor; hide DemandFault; hide CanFault; hide Accounted; hide RangeUnmapped;
    WholeFault(s, r, g, n);
    FaultAccount(s, r, g, n, FaultSize(g, n));
  }

  /** Reference accounting: however far it has got, a fault has kept exact counts exact if and only
      if no page has been in its way. */
  lemma DemandFaultExactIff(s: Sys, r: nat, g: Region, n: nat, j: nat)
    requires Inv(s) && Exact(s) && LastsFor(s, r, g, n, j)
    ensures Exact(Progress(s, r, g, n, j)) <==> RangeUnmapped(s, r, n, j)
  {
    hide Inv; hide Exact; hide LastsFor; hide Progress; hide RangeUnmapped; hide Accounted;
    FaultAccount(s, r, g, n, j);
    AccountedExact(s, Progress(s, r, g, n, j), RangeUnmapped(s, r, n, j));
  }

  // ---------------------------------------------------------------------------------
  // Runs whose faults meet no page
  // ---------------------------------------------------------------------------------

  /** The step is no fault, or none of the pages it maps is mapped. */
  ghost predicate Gentle(w: World, st: Step) {
    st.Fault? && st.r in w.procs ==> RangeUnmapped(w.sys, st.r, st.addr / PAGE_SIZE, FaultSize(w.procs[st.r], st.addr / PAGE_SIZE))
  }

  ghost predicate AllGentle(w: World, steps: seq<Step>)
    decreases |steps|
  {
    steps == [] || (Gentle(w, steps[0]) && AllGentle(Exec(w, steps[0]), steps[1..]))
  }

  predicate WritesTo(st: Step, r: nat, n: nat) {
    st.Write? && st.r == r && st.n == n
  }

  /** A page keeps its content through a step of the eager machine that neither writes to it nor
      maps over it. */
  lemma EagerKeeps(e: Eager, st: Step, e': Eager, r: nat, n: nat)
    requires EagerStep(e, st, e') && r in e.images && n in e.images[r] && !WritesTo(st, r, n)
    requires st.Fault? && st.r in e.images && st.r in e.procs ==>
               RangeFree(e.images[st.r], st.addr / PAGE_SIZE, FaultSize(e.procs[st.r], st.addr / PAGE_SIZE))
    ensures r in e'.images && n in e'.images[r] && e'.images[r][n] == e.images[r][n]
  {
    hide CopyPages; hide PagesOf; hide FaultSize;
  }

  lemma GentleIsFree(w: World, st: Step)
    requires WorldInv(w) && Enabled(w, st) && Gentle(w, st) && st.Fault?
    ensures st.r in Views(w.sys) && st.r in w.procs
    ensures RangeFree(Views(w.sys)[st.r], st.addr / PAGE_SIZE, FaultSize(w.procs[st.r], st.addr / PAGE_SIZE))
  {
    hide FaultSize; hide Leaf; hide StackIn; hide Kills; hide Safe;
  }

  lemma StepPersists(w: World, st: Step, r: nat, n: nat)
    requires WorldInv(w) && Enabled(w, st) && Gentle(w, st) && !WritesTo(st, r, n)
    requires r in Views(w.sys) && n in Views(w.sys)[r]
    ensures var a' := Views(Exec(w, st).sys); r in a' && n in a'[r] && a'[r][n] == Views(w.sys)[r][n]
  {
    hide WorldInv; hide Enabled; hide Exec; hide EagerStep; hide Views; hide Gentle; hide RangeFree;
    StepRefines(w, st);
    if st.Fault? {
      GentleIsFree(w, st);
    }
    EagerKeeps(Observed(w), st, Observed(Exec(w, st)), r, n);
  }

  /** Over any run whose faults meet no mapped page, a page that its process does not write to
      keeps its content, whatever the other processes and the kernel do. */
  lemma {:induction false} PagesPersist(w: World, steps: seq<Step>, r: nat, n: nat)
    requires WorldInv(w) && AllEnabled(w, steps) && AllGentle(w, steps)
    requires r in Views(w.sys) && n in Views(w.sys)[r]
    requires forall i :: 0 <= i < |steps| ==> !WritesTo(steps[i], r, n)
    ensures var a' := Views(ExecAll(w, steps).sys); r in a' && n in a'[r] && a'[r][n] == Views(w.sys)[r][n]
    decreases |steps|
  {
    hide WorldInv; hide Enabled; hide Exec; hide Views; hide Gentle; hide EagerStep;
    if steps != [] {
      StepPersists(w, steps[0], r, n);
      StepRefines(w, steps[0]);
      forall i | 0 <= i < |steps[1..]| ensures !WritesTo(steps[1..][i], r, n) {
        assert steps[1..][i] == steps[i + 1];
      }
      PagesPersist(Exec(w, steps[0]), steps[1..], r, n);
    }
  }

  // ---------------------------------------------------------------------------------
  // How much memory a fault needs
  // ---------------------------------------------------------------------------------

  lemma {:induction false} MissingBound(m: Mem, root: nat, n: nat, level: nat)
    requires 1 <= level <= 4
    ensures Missing(m, root, n, level) <= 4 - level
    decreases 4 - level
  {
    if level < 4 {
      MissingBound(m, root, n, level + 1);
    }
  }

  /** Four free frames are enough to map a page: one for the page, three for tables. */
  lemma FourFrames(s: Sys, n: nat)
    requires Inv(s) && n < USER_PAGES && |Free(s.info)| >= 4
    ensures CanMapFresh(s, n)
  {
    hide Tree; hide LeavesOwned; hide KernelHalfShared; hide Missing;
    MissingBound(s.mem, s.cur, n, 1);
    FindFreeSpec(s.info);
    assert |Free(s.info) - {FindFree(s.info)}| == |Free(s.info)| - 1;
  }

  lemma MapFreshCost(s: Sys, n: nat, xd: bool)
    requires Inv(s) && CanMapFresh(s, n)
    ensures |Free(MapFresh(s, n, xd).info)| >= |Free(s.info)| - 4
  {
    var f := FindFree(s.info);
    FindFreeSpec(s.info);
    hide Linked; hide LeavesOwned; hide KernelHalfShared; hide Leaf; hide FindFree; hide EnsureTo; hide SetLeaf; hide Missing;
    ClaimInv(s, n, f);
    MissingBound(s.mem, s.cur, n, 1);
    var s1 := s.(info := s.info[f := Claim(s.info[f])]);
    EnsureToKeeps(s1, n, 1);
    var s2 := EnsureTo(s1, n, 1);
    SetLeafInfo(s2, n, NewEntry(f, USER_FLAGS, xd));
    assert |Free(s.info) - {f}| == |Free(s.info)| - 1;
  }

  lemma {:induction false} GrowNeeds(s: Sys, n: nat, k: nat)
    requires Inv(s) && n + k <= USER_PAGES && |Free(s.info)| >= 4 * k
    ensures GrowFits(s, n, k) && |Free(GrowStack(s, n, k).info)| >= |Free(s.info)| - 4 * k
    decreases k
  {
    hide MapFresh; hide Inv; hide CanMapFresh; hide Leaf; hide Free; hide IdleKept; hide Borrowed;
    if k > 0 {
      FourFrames(s, n);
      MapFreshReplaces(s, n, true);
      MapFreshCost(s, n, true);
      GrowNeeds(MapFresh(s, n, true), n + 1, k - 1);
    }
  }

  /** What a fault needs besides memory: a user page that is not CoW, and a stack in the user half. */
  ghost predicate Faultable(s: Sys, r: nat, g: Region, n: nat) {
    IsRoot(s.role, r) && n < USER_PAGES && StackFits(g) && !Leaf(s.mem, r, n).cow
  }

  predicate StackFits(g: Region) {
    1 <= g.stackPages <= g.stackBase + 1 && g.stackBase < USER_PAGES
  }

  function PlainSize(g: Region, n: nat): nat {
    if InStackWindow(g, n) then PlainGap(g, n) else 1
  }

  lemma PlainInHalf(g: Region, n: nat)
    requires n < USER_PAGES && StackFits(g)
    ensures n + PlainSize(g, n) <= USER_PAGES && (AtOrBelow(g, n) ==> FaultSize(g, n) == PlainSize(g, n))
  {
  }

  /** Three free frames and four for every page missing are enough for a fault, if it is to map
      those pages only. */
  lemma FaultNeeds(s: Sys, r: nat, g: Region, n: nat)
    requires Inv(s) && Faultable(s, r, g, n) && AtOrBelow(g, n) && |Free(s.info)| >= 3 + 4 * PlainSize(g, n)
    ensures CanFault(s, r, g, n)
    ensures |Free(DemandFault(s, r, g, n).0.info)| >= |Free(s.info)| - 3 - 4 * PlainSize(g, n)
  {
    PlainInHalf(g, n);
    hide EnsureTo; hide Inv; hide Leaf; hide Free; hide GrowStack; hide MapFresh; hide GrowFits; hide CanMapFresh; hide Missing;
    hide IdleKept; hide StackGap; hide InStackWindow; hide PlainGap; hide AtOrBelow;
    MissingBound(s.mem, r, n, 1);
    WalkReplacesNone(s, r, n);
    WalkCost(s, r, n);
    var s1 := EnsureTo(s.(cur := r), n, 1);
    if InStackWindow(g, n) {
      GrowNeeds(s1, n, StackGap(g, n));
    } else {
      FourFrames(s1, n);
      MapFreshCost(s1, n, false);
    }
  }

  /** With memory enough for the pages missing, a fault can be served to its end if and only if its
      page is not one of the stack's but the lowest. */
  lemma FaultCompletesIff(s: Sys, r: nat, g: Region, n: nat)
    requires Inv(s) && Faultable(s, r, g, n) && |Free(s.info)| >= 3 + 4 * PlainSize(g, n)
    ensures CanFault(s, r, g, n) <==> AtOrBelow(g, n)
  {
    hide Inv; hide Faultable; hide CanFault; hide AtOrBelow; hide PlainSize; hide DemandFault; hide Free;
    if AtOrBelow(g, n) {
      FaultNeeds(s, r, g, n);
    }
    if CanFault(s, r, g, n) {
      FaultBelow(s, r, g, n);
    }
  }

  // ---------------------------------------------------------------------------------
  // A fault inside the stack
  // ---------------------------------------------------------------------------------

  /** The stack loop goes on as long as there is memory, user pages, and count left. */
  lemma {:induction false} GrowAsFar(s: Sys, n: nat, k: nat) returns (j: nat)
    requires Inv(s) && n <= USER_PAGES
    ensures j <= k && GrowFits(s, n, j) && (j == k || |Free(GrowStack(s, n, j).info)| < 4 || n + j == USER_PAGES)
    ensures k > 0 && n < USER_PAGES && |Free(s.info)| >= 4 ==> j > 0
    decreases k
  {
    hide MapFresh; hide Inv; hide CanMapFresh; hide Leaf; hide Free; hide IdleKept; hide Borrowed;
    if k == 0 || n == USER_PAGES || |Free(s.info)| < 4 {
      j := 0;
    } else {
      FourFrames(s, n);
      MapFreshReplaces(s, n, true);
      j := GrowAsFar(MapFresh(s, n, true), n + 1, k - 1);
      j := j + 1;
    }
  }

  /** A fault on a page of the stack above its lowest: the loop does not end before memory or the
      user half does, and replaces that page and those above it one by one. */
  lemma FaultInsideStack(s: Sys, r: nat, g: Region, n: nat) returns (j: nat)
    requires Inv(s) && Faultable(s, r, g, n) && !AtOrBelow(g, n) && |Free(s.info)| >= 7
    ensures j > 0 && LastsFor(s, r, g, n, j) && Replaced(s, Progress(s, r, g, n, j), r, n, j)
    ensures |Free(Progress(s, r, g, n, j).info)| < 4 || n + j == USER_PAGES
  {
    hide EnsureTo; hide Inv; hide Leaf; hide Free; hide GrowStack; hide MapFresh; hide GrowFits; hide CanMapFresh; hide Missing;
    hide Replaced; hide IdleKept; hide StackGap; hide StackLow; hide Wrapped;
    MissingBound(s.mem, r, n, 1);
    WalkReplacesNone(s, r, n);
    WalkCost(s, r, n);
    GapAbove(g, n);
    var s1 := EnsureTo(s.(cur := r), n, 1);
    j := GrowAsFar(s1, n, StackGap(g, n));
    GrowInRange(s1, n, j);
    FaultReplaces(s, r, g, n, j);
  }

  lemma WalkCost(s: Sys, r: nat, n: nat)
    requires Inv(s) && IsRoot(s.role, r) && n < USER_PAGES && |Free(s.info)| >= Missing(s.mem, r, n, 1)
    ensures |Free(EnsureTo(s.(cur := r), n, 1).info)| == |Free(s.info)| - Missing(s.mem, r, n, 1)
  {
    hide EnsureTo; hide Leaf; hide Linked; hide LeavesOwned; hide KernelHalfShared;
    SameButCur(s, r);
    EnsureToKeeps(s.(cur := r), n, 1);
  }

  // ---------------------------------------------------------------------------------
  // A run that loses a page
  // ---------------------------------------------------------------------------------

  const STACK: nat := 0x7_FFF0

  /** Three pages below a stack of one page: no stack access yet, but not killed either. */
  const BELOW: nat := STACK - 3

  /** The process touches a page below its stack, writes to it, then lets the stack grow page by
      page and at last by two pages at once.  The worlds before and after that last fault. */
  function Loss(w: World, r: nat, i: nat, v: Word): (World, World) {
    var w1 := Exec(w, Fault(r, BELOW * PAGE_SIZE));
    var w2 := Exec(w1, Write(r, BELOW, i, v));
    var w3 := Exec(w2, Fault(r, (STACK - 1) * PAGE_SIZE));
    var w4 := Exec(w3, Fault(r, (STACK - 2) * PAGE_SIZE));
    (w4, Exec(w4, Fault(r, (STACK - 4) * PAGE_SIZE)))
  }

  /** A fault near the stack, at or below its lowest page, is a step that the machine can take. */
  lemma FaultEnabled(w: World, r: nat, n: nat)
    requires WorldInv(w) && r in w.procs && 4 <= StackLow(w.procs[r]) <= n + 4 && n <= StackLow(w.procs[r])
    requires !Leaf(w.sys.mem, r, n).cow && |Free(w.sys.info)| >= 3 + 4 * PlainSize(w.procs[r], n)
    ensures Enabled(w, Fault(r, n * PAGE_SIZE)) && FaultSize(w.procs[r], n) == PlainSize(w.procs[r], n)
    ensures |Free(Exec(w, Fault(r, n * PAGE_SIZE)).sys.info)| >= |Free(w.sys.info)| - 3 - 4 * PlainSize(w.procs[r], n)
  {
    var g := w.procs[r];
    StackOf(w, r);
    PlainInHalf(g, n);
    NotKilled(g, n);
    StackGapIff(g, n);
    hide WorldInv; hide CanFault; hide DemandFault; hide Leaf; hide Inv; hide Free; hide PlainSize; hide FaultSize; hide Views;
    hide InStackWindow; hide StackLow; hide Kills; hide StackFits;
    FaultNeeds(w.sys, r, g, n);
    FaultIsEnabled(w, r, n);
  }

  lemma FaultIsEnabled(w: World, r: nat, n: nat)
    requires r in w.procs && !Kills(w.procs[r], n * PAGE_SIZE) && CanFault(w.sys, r, w.procs[r], n)
    ensures Enabled(w, Fault(r, n * PAGE_SIZE))
    ensures Exec(w, Fault(r, n * PAGE_SIZE)).sys == DemandFault(w.sys, r, w.procs[r], n).0
  {
    assert n * PAGE_SIZE / PAGE_SIZE == n;
    hide Kills; hide CanFault; hide DemandFault;
  }

  lemma NotKilled(g: Region, n: nat)
    requires 4 <= StackLow(g) <= n + 4
    ensures !Kills(g, n * PAGE_SIZE)
  {
    assert n * PAGE_SIZE / PAGE_SIZE == n;
    hide AccessOk; hide StackLow;
  }

  /** What a running process's stack looks like: its lowest page is no wrapped number. */
  lemma StackOf(w: World, r: nat)
    requires WorldInv(w) && r in w.procs
    ensures var g := w.procs[r];
            && IsRoot(w.sys.role, r) && Inv(w.sys) && StackFits(g) && StackLow(g) == g.stackBase - (g.stackPages - 1)
            && forall k: nat :: StackLow(g) <= k <= g.stackBase ==> k < USER_PAGES && Leaf(w.sys.mem, r, k).p
  {
    hide Leaf; hide Inv;
    var g := w.procs[r];
    StackInHalf(w.sys, r, g);
    forall k: nat | StackLow(g) <= k <= g.stackBase ensures k < USER_PAGES && Leaf(w.sys.mem, r, k).p {
      assert k in Views(w.sys)[r];
    }
  }

  /** The numbers around a small stack at STACK. */
  lemma Near(g: Region, n: nat)
    requires g.stackBase == STACK && 1 <= g.stackPages <= 9 && STACK - 9 <= n <= STACK
    ensures StackLow(g) == STACK + 1 - g.stackPages && (InStackWindow(g, n) <==> n + g.stackPages + 1 >= STACK)
    ensures n <= StackLow(g) ==> StackGap(g, n) == PlainGap(g, n) == StackLow(g) - n
    ensures PlainSize(g, n) == if n + g.stackPages + 1 >= STACK then PlainGap(g, n) else 1
  {
  }

  lemma FaultStep(w: World, r: nat, n: nat)
    requires WorldInv(w) && Enabled(w, Fault(r, n * PAGE_SIZE))
    ensures var w' := Exec(w, Fault(r, n * PAGE_SIZE)); var g := w.procs[r];
            && r in w.procs && WorldInv(w') && Inv(w.sys) && Inv(w'.sys) && IsRoot(w.sys.role, r) && IsRoot(w'.sys.role, r)
            && Replaced(w.sys, w'.sys, r, n, FaultSize(g, n))
            && w'.procs == w.procs[r := if InStackWindow(g, n) then g.(stackPages := g.stackPages + StackGap(g, n))
                                        else g.(pages := g.pages + 1)]
  {
    hide Replaced; hide Exec; hide Enabled; hide WorldInv; hide EagerStep; hide IsRoot; hide Inv; hide CanFault;
    hide DemandFault; hide Observed; hide InStackWindow; hide StackGap; hide FaultSize; hide Safe;
    ExecFault(w, r, n);
    StepRefines(w, Fault(r, n * PAGE_SIZE));
    FaultFacts(w.sys, r, w.procs[r], n);
    FaultRegion(w.sys, r, w.procs[r], n);
    WorldIsInv(w);
    WorldIsInv(Exec(w, Fault(r, n * PAGE_SIZE)));
  }

  lemma ExecFault(w: World, r: nat, n: nat)
    requires WorldInv(w) && Enabled(w, Fault(r, n * PAGE_SIZE))
    ensures r in w.procs && Safe(w.sys) && CanFault(w.sys, r, w.procs[r], n)
    ensures var (s, g) := DemandFault(w.sys, r, w.procs[r], n);
            Exec(w, Fault(r, n * PAGE_SIZE)) == World(s, w.procs[r := g])
  {
    assert n * PAGE_SIZE / PAGE_SIZE == n;
    hide CanFault; hide DemandFault; hide Safe; hide Kills; hide StacksMapped;
  }

  lemma FaultFacts(s: Sys, r: nat, g: Region, n: nat)
    requires Safe(s) && CanFault(s, r, g, n)
    ensures IsRoot(s.role, r) && IsRoot(DemandFault(s, r, g, n).0.role, r)
    ensures Replaced(s, DemandFault(s, r, g, n).0, r, n, FaultSize(g, n))
  {
    hide Replaced; hide DemandFault;
    DemandFaultReplaces(s, r, g, n);
  }

  lemma WorldIsInv(w: World)
    requires WorldInv(w)
    ensures Inv(w.sys)
  {
  }

  /** A page outside the range reads as before. */
  lemma ReadKept(s: Sys, s': Sys, r: nat, n: nat, size: nat, k: nat, i: nat)
    requires Inv(s) && IsRoot(s.role, r) && Replaced(s, s', r, n, size) && k < USER_PAGES && Leaf(s.mem, r, k).p && !(n <= k < n + size)
    ensures Leaf(s'.mem, r, k) == Leaf(s.mem, r, k) && UserRead(s', r, k, i) == UserRead(s, r, k, i)
  {
    hide Leaf;
    MappedFrame(s, r, k);
  }

  /** A page in the range reads as some free frame did. */
  lemma ReadLost(s: Sys, s': Sys, r: nat, n: nat, size: nat, k: nat, i: nat)
    requires Inv(s) && IsRoot(s.role, r) && Replaced(s, s', r, n, size) && n <= k < n + size && Leaf(s.mem, r, k).p
    ensures Leaf(s'.mem, r, k).p && Leaf(s'.mem, r, k).frame != Leaf(s.mem, r, k).frame
    ensures exists f :: f in Free(s.info) && UserRead(s', r, k, i) == Peek(s.mem, f, i)
  {
    hide Leaf; hide UserFrame; hide Free;
    MappedNotFree(s, r, k);
    assert Borrowed(s, s', Leaf(s'.mem, r, k).frame);
  }

  /** The steps of Loss, one by one. */
  ghost predicate LossEnabled(w: World, r: nat, i: nat, v: Word) {
    var w1 := Exec(w, Fault(r, BELOW * PAGE_SIZE));
    var w2 := Exec(w1, Write(r, BELOW, i, v));
    var w3 := Exec(w2, Fault(r, (STACK - 1) * PAGE_SIZE));
    var w4 := Exec(w3, Fault(r, (STACK - 2) * PAGE_SIZE));
    && Enabled(w, Fault(r, BELOW * PAGE_SIZE)) && Enabled(w1, Write(r, BELOW, i, v))
    && Enabled(w2, Fault(r, (STACK - 1) * PAGE_SIZE)) && Enabled(w3, Fault(r, (STACK - 2) * PAGE_SIZE))
    && Enabled(w4, Fault(r, (STACK - 4) * PAGE_SIZE))
  }

  /** Any process with a stack of one page, on any machine with forty free frames, can run so: the
      machine takes every step.  The page below the stack reads as written until the last fault;
      then it is another frame, and reads as that frame happened to when it was free. */
  lemma LostPage(w: World, r: nat, i: nat, v: Word)
    requires WorldInv(w) && r in w.procs && w.procs[r].stackBase == STACK && w.procs[r].stackPages == 1
    requires |Free(w.sys.info)| >= 40 && i < ENTRIES
    requires forall k: nat :: STACK - 4 <= k < STACK ==> !Leaf(w.sys.mem, r, k).cow
    ensures LossEnabled(w, r, i, v)
    ensures var (w4, w5) := Loss(w, r, i, v);
            && Leaf(w4.sys.mem, r, BELOW).p && UserRead(w4.sys, r, BELOW, i) == v
            && Leaf(w5.sys.mem, r, BELOW).p && Leaf(w5.sys.mem, r, BELOW).frame != Leaf(w4.sys.mem, r, BELOW).frame
            && exists f :: f in Free(w4.sys.info) && UserRead(w5.sys, r, BELOW, i) == Peek(w4.sys.mem, f, i)
  {
    hide Exec; hide Enabled; hide WorldInv; hide Leaf; hide Inv; hide UserRead; hide Free; hide IsRoot; hide IdleKept;
    hide Borrowed; hide Peek; hide StackLow; hide InStackWindow; hide StackGap; hide FaultSize; hide PlainSize; hide Wrapped;
    Near(w.procs[r], BELOW);
    var w1 := Exec(w, Fault(r, BELOW * PAGE_SIZE));
    FaultEnabled(w, r, BELOW);
    FaultStep(w, r, BELOW);
    var w2 := Exec(w1, Write(r, BELOW, i, v));
    WriteEnabled(w1, r, BELOW, i, v);
    WriteStep(w1, r, BELOW, i, v);
    Near(w2.procs[r], STACK - 1);
    var w3 := Exec(w2, Fault(r, (STACK - 1) * PAGE_SIZE));
    FaultEnabled(w2, r, STACK - 1);
    FaultStep(w2, r, STACK - 1);
    Near(w3.procs[r], STACK - 2);
    var w4 := Exec(w3, Fault(r, (STACK - 2) * PAGE_SIZE));
    FaultEnabled(w3, r, STACK - 2);
    FaultStep(w3, r, STACK - 2);
    Near(w4.procs[r], STACK - 4);
    FaultEnabled(w4, r, STACK - 4);
    FaultStep(w4, r, STACK - 4);
    ReadKept(w2.sys, w3.sys, r, STACK - 1, 1, BELOW, i);
    ReadKept(w3.sys, w4.sys, r, STACK - 2, 1, BELOW, i);
    ReadLost(w4.sys, Exec(w4, Fault(r, (STACK - 4) * PAGE_SIZE)).sys, r, STACK - 4, 2, BELOW, i);
  }

  lemma WriteEnabled(w: World, r: nat, n: nat, i: nat, v: Word)
    requires r in w.procs && IsRoot(w.sys.role, r) && n < USER_PAGES && FreshEntry(Leaf(w.sys.mem, r, n)) && i < ENTRIES
    ensures Enabled(w, Write(r, n, i, v))
  {
  }

  lemma WriteStep(w: World, r: nat, n: nat, i: nat, v: Word)
    requires WorldInv(w) && Enabled(w, Write(r, n, i, v))
    ensures var w' := Exec(w, Write(r, n, i, v));
            && WorldInv(w') && w'.procs == w.procs && r in w.procs
            && n < USER_PAGES && Leaf(w'.sys.mem, r, n).p && UserRead(w'.sys, r, n, i) == v
            && w'.sys.info == w.sys.info && IsRoot(w'.sys.role, r)
            && forall k: nat :: k < USER_PAGES ==> Leaf(w'.sys.mem, r, k) == Leaf(w.sys.mem, r, k)
  {
    hide Safe; hide StacksMapped; hide EagerStep; hide Leaf;
    StepRefines(w, Write(r, n, i, v));
    SafeIsInv(w.sys);
    UserWriteFacts(w.sys, r, n, i, v);
  }

  lemma SafeIsInv(s: Sys)
    requires Safe(s)
    ensures Inv(s)
  {
  }

  // ---------------------------------------------------------------------------------
  // A run that ends in the stack loop
  // ---------------------------------------------------------------------------------

  /** Pages that stack growth has mapped cannot be executed. */
  lemma {:induction false} GrownNotExecutable(s: Sys, n: nat, k: nat, i: nat)
    requires Inv(s) && GrowFits(s, n, k) && n + k <= USER_PAGES && n <= i < n + k
    ensures Leaf(GrowStack(s, n, k).mem, s.cur, i).xd
    decreases k
  {
    hide MapFresh; hide Inv; hide CanMapFresh; hide Leaf; hide Free; hide IdleKept; hide Borrowed; hide GrowFits;
    var s1 := MapFresh(s, n, true);
    GrowFirst(s, n, k);
    MapFreshReplaces(s, n, true);
    if i == n {
      FreshNotExecutable(s, n);
      GrowStackReplaces(s1, n + 1, k - 1);
    } else {
      GrownNotExecutable(s1, n + 1, k - 1, i);
    }
  }

  lemma GrowFirst(s: Sys, n: nat, k: nat)
    requires GrowFits(s, n, k) && k > 0
    ensures CanMapFresh(s, n) && GrowFits(MapFresh(s, n, true), n + 1, k - 1)
  {
  }

  lemma FreshNotExecutable(s: Sys, n: nat)
    requires Inv(s) && CanMapFresh(s, n)
    ensures Leaf(MapFresh(s, n, true).mem, s.cur, n).xd
  {
    hide Alloc; hide Inv; hide Leaf; hide CanAlloc; hide FindFree; hide DataKept;
    AllocFacts(s, n, FindFree(s.info), USER_FLAGS, true);
  }

  lemma StackNotExecutable(s: Sys, r: nat, g: Region, n: nat, i: nat)
    requires Inv(s) && CanFault(s, r, g, n) && InStackWindow(g, n) && n <= i < n + StackGap(g, n)
    ensures Leaf(DemandFault(s, r, g, n).0.mem, r, i).xd
  {
    hide EnsureTo; hide Inv; hide Leaf; hide Free; hide GrowStack; hide GrowFits; hide Missing; hide StackGap; hide InStackWindow;
    WalkReplacesNone(s, r, n);
    var s1 := EnsureTo(s.(cur := r), n, 1);
    GrowInRange(s1, n, StackGap(g, n));
    GrownNotExecutable(s1, n, StackGap(g, n), i);
  }

  /** Any process with a stack of one page, on any machine with forty free frames, can grow its
      stack by two pages at once and then jump to the upper one.  That page is mapped, but not for
      execution.  The fault is neither a reason to kill the process nor one that can be served: the
      loop replaces the page, and goes on to those above it until memory is gone. */
  lemma JumpIntoStack(w: World, r: nat) returns (j: nat)
    requires WorldInv(w) && r in w.procs && w.procs[r].stackBase == STACK && w.procs[r].stackPages == 1
    requires |Free(w.sys.info)| >= 40 && !Leaf(w.sys.mem, r, STACK - 2).cow
    ensures Enabled(w, Fault(r, (STACK - 2) * PAGE_SIZE))
    ensures var w1 := Exec(w, Fault(r, (STACK - 2) * PAGE_SIZE)); var before := Leaf(w1.sys.mem, r, STACK - 1);
            && r in w1.procs && before.p && before.xd && !before.cow
            && !Kills(w1.procs[r], (STACK - 1) * PAGE_SIZE) && !Enabled(w1, Fault(r, (STACK - 1) * PAGE_SIZE))
            && j > 0 && LastsFor(w1.sys, r, w1.procs[r], STACK - 1, j)
            && var s2 := Progress(w1.sys, r, w1.procs[r], STACK - 1, j);
               && Leaf(s2.mem, r, STACK - 1).p && Leaf(s2.mem, r, STACK - 1).frame != before.frame
               && (|Free(s2.info)| < 4 || STACK - 1 + j == USER_PAGES)
  {
    hide Exec; hide Enabled; hide WorldInv; hide Leaf; hide Inv; hide Free; hide IsRoot; hide IdleKept; hide Borrowed;
    hide StackLow; hide InStackWindow; hide StackGap; hide FaultSize; hide PlainSize; hide Wrapped; hide Kills; hide LastsFor;
    hide Progress; hide CanFault; hide StackFits; hide DemandFault;
    var g := w.procs[r];
    Near(g, STACK - 2);
    FaultEnabled(w, r, STACK - 2);
    ExecFault(w, r, STACK - 2);
    FaultStep(w, r, STACK - 2);
    StackNotExecutable(w.sys, r, g, STACK - 2, STACK - 1);
    var w1 := Exec(w, Fault(r, (STACK - 2) * PAGE_SIZE));
    var g1 := w1.procs[r];
    Near(g1, STACK - 1);
    StackOf(w1, r);
    NotKilled(g1, STACK - 1);
    InsideNotEnabled(w1, r, STACK - 1);
    j := FaultInsideStack(w1.sys, r, g1, STACK - 1);
    MappedNotFree(w1.sys, r, STACK - 1);
    BorrowedWas(w1.sys, Progress(w1.sys, r, g1, STACK - 1, j), r, STACK - 1, j);
  }

  lemma BorrowedWas(s: Sys, s': Sys, r: nat, n: nat, j: nat)
    requires Replaced(s, s', r, n, j) && j > 0
    ensures Leaf(s'.mem, r, n).p && Leaf(s'.mem, r, n).frame in Free(s.info)
  {
    hide Leaf; hide Free; hide IdleKept;
  }

  lemma InsideNotEnabled(w: World, r: nat, n: nat)
    requires r in w.procs && !AtOrBelow(w.procs[r], n)
    ensures !Enabled(w, Fault(r, n * PAGE_SIZE))
  {
    assert n * PAGE_SIZE / PAGE_SIZE == n;
    hide CanFault; hide AtOrBelow; hide Kills;
    if CanFault(w.sys, r, w.procs[r], n) {
      FaultBelow(w.sys, r, w.procs[r], n);
    }
  }
}
