/**
  The memory manager as the kernel runs it: one object whose methods update physical memory
  and phys_frames in place, each equal to the corresponding function on states.
 */
module KernelMemory {
  import opened Wrappers
  import opened Words
  import opened PageTables
  import opened AddressSpace
  import opened CopyOnWrite
  import opened Fork
  import opened MemoryRuns
  import opened Teardown
  import opened Exits
  import opened Launch
  import opened Access

  class Kernel {
    /** Physical memory by frame number; module DirectMap says when the kernel's direct map gives
        the same. */
    var mem: Mem
    const physFrames: array<FrameInfo>
    /** PML4_Physical */
    var pml4: nat
    /** The kernel task's PageCount. */
    var kernelPages: nat
    ghost var role: seq<Role>

    constructor (mem: Mem, physFrames: array<FrameInfo>, pml4: nat, kernelPages: nat, ghost role: seq<Role>)
      ensures State() == Sys(mem, physFrames[..], role, pml4, kernelPages)
      ensures this.physFrames == physFrames
    {
      this.mem, this.physFrames, this.pml4, this.kernelPages, this.role := mem, physFrames, pml4, kernelPages, role;
    }

    ghost function State(): Sys
      reads this, physFrames
    {
      Sys(mem, physFrames[..], role, pml4, kernelPages)
    }

    /** First fit over phys_frames. */
    method FindNextFreePhysical() returns (f: nat)
      ensures f == FindFree(physFrames[..])
    {
      var k := 0;
      while k < physFrames.Length
        invariant 0 <= k <= physFrames.Length
        invariant FindFree(physFrames[..]) == FindFreeFrom(physFrames[..], k)
      {
        if IsFree(physFrames[k]) {
          return k;
        }
        k := k + 1;
      }
      return 0;
    }

    method SetFrame(f: nat, i: FrameInfo)
      modifies physFrames
      ensures physFrames[..] == SetInfo(old(physFrames[..]), f, i)
    {
      if f < physFrames.Length {
        physFrames[f] := i;
      }
    }

    /** EnsureEntry */
    method EnsureEntry(t: nat, i: nat, flags: Word)
      modifies this, physFrames
      ensures State() == Ensure(old(State()), t, i, flags) && pml4 == old(pml4)
    {
      var w := Peek(mem, t, i);
      if !(w.p && w.frame < CANONICAL_FRAMES) {
        var f := FindNextFreePhysical();
        SetFrame(f, KernelOwned(InfoAt(physFrames[..], f)));
        mem := Fill(mem, f, Zeros());
        mem := Poke(mem, t, i, flags.(frame := f, p := true));
        role := SetRole(role, f, ChildRole(RoleOf(role, t), i));
      }
    }

    /** CalculatePagePhysicalEntryAddress: the page table that holds the entry of page n. */
    method EntryTable(n: nat) returns (pt: Option<nat>)
      modifies this, physFrames
      ensures State() == EnsureTo(old(State()), n, 1)
      ensures pt == Table(mem, pml4, n, 1) && pml4 == old(pml4)
    {
      hide Ensure;
      var flags := WalkFlags(n);
      ghost var was := State();
      EnsureEntry(pml4, Index(n, 4), flags);
      TableStep(was, n, 3);
      pt := Table(mem, pml4, n, 3);
      if pt.Some? {
        EnsureEntry(pt.value, Index(n, 3), flags);
        TableStep(was, n, 2);
        pt := Table(mem, pml4, n, 2);
        if pt.Some? {
          EnsureEntry(pt.value, Index(n, 2), flags);
          TableStep(was, n, 1);
          pt := Table(mem, pml4, n, 1);
        } else {
          StoppedWalk(was, n, 2);
        }
      } else {
        StoppedWalk(was, n, 3);
      }
    }

    /** alloc_page */
    method AllocPage(n: nat, frame: nat, flags: Word, xd: bool) returns (outcome: Outcome)
      modifies this, physFrames
      ensures outcome == AllocOutcome(old(State()), n, frame)
      ensures State() == Alloc(old(State()), n, frame, flags, xd)
    {
      if frame >= physFrames.Length {
        return Halted;
      }
      if physFrames[frame].dirty {
        return RefusedDirty;
      }
      if physFrames[frame].kernel && n < USER_PAGES {
        return RefusedAccess;
      }
      if n < USER_PAGES {
        SetFrame(frame, Claim(physFrames[frame]));
      }
      var pt := EntryTable(n);
      if pt.Some? {
        mem := Poke(mem, pt.value, Index(n, 1), NewEntry(frame, flags, xd));
      }
      return Mapped;
    }

    /** malloc(KernelTask) */
    method MallocPage() returns (n: nat)
      modifies this, physFrames
      ensures State() == Malloc(old(State())) && n == HeapPage(old(State()))
    {
      hide Alloc; hide FindFree; hide KernelOwned; hide InfoAt;
      n := USER_PAGES + kernelPages + 1;
      var f := FindNextFreePhysical();
      kernelPages := kernelPages + 1;
      SetFrame(f, KernelOwned(InfoAt(physFrames[..], f)));
      var outcome := AllocPage(n, f, KERNEL_FLAGS, true);
    }

    /** Create_User_Memory */
    method NewAddressSpace() returns (c: nat)
      modifies this, physFrames
      ensures (State(), c) == CreateUserMemory(old(State()))
    {
      var n := MallocPage();
      c := Leaf(mem, pml4, n).frame;
      mem := Fill(mem, c, RootImage(Content(mem, pml4)));
      role := SetRole(role, c, RootRole(c));
    }

    /** The CoW branch of HandlePageFault. */
    method ResolveCow(n: nat)
      modifies this, physFrames
      ensures State() == CowFault(old(State()), n)
    {
      var pt := EntryTable(n);
      var w := Leaf(mem, pml4, n);
      if InfoAt(physFrames[..], w.frame).refcount <= 1 {
        WriteEntry(pt, n, Unshared(w, w.frame));
      } else {
        SetFrame(w.frame, DropReference(InfoAt(physFrames[..], w.frame)));
        var f := FindNextFreePhysical();
        var bounce := Content(mem, w.frame);
        WriteEntry(pt, n, Unshared(w, f));
        SetFrame(f, InfoAt(physFrames[..], f).(used := true));
        mem := Fill(mem, f, bounce);
      }
    }

    method WriteEntry(pt: Option<nat>, n: nat, e: Word)
      requires pt == Table(mem, pml4, n, 1)
      modifies this`mem
      ensures State() == SetLeaf(old(State()), n, e)
    {
      if pt.Some? {
        mem := Poke(mem, pt.value, Index(n, 1), e);
      }
    }

    /** One iteration of fork's loops. */
    method SharePage(r: nat, c: nat, n: nat)
      modifies this, physFrames
      ensures State() == ForkPage(old(State()), r, c, n)
    {
      pml4 := r;
      var pt := EntryTable(n);
      var w := Shared(Leaf(mem, r, n));
      WriteEntry(pt, n, w);
      pml4 := c;
      var outcome := AllocPage(n, w.frame, w, false);
    }

    /** One of fork's two loops, over the pages of a range. */
    method ShareRange(r: nat, c: nat, pages: seq<nat>)
      modifies this, physFrames
      ensures State() == ForkPages(old(State()), r, c, pages)
    {
      hide ForkPage;
      var i := 0;
      while i < |pages|
        invariant 0 <= i <= |pages|
        invariant State() == ForkPages(old(State()), r, c, pages[..i])
      {
        SharePage(r, c, pages[i]);
        ForkPagesConcat(old(State()), r, c, pages[..i], [pages[i]]);
        assert pages[..i + 1] == pages[..i] + [pages[i]];
        i := i + 1;
      }
      assert pages[..i] == pages;
    }

    /** FORK */
    method ForkAddressSpace(r: nat, g: Region) returns (c: nat)
      modifies this, physFrames
      ensures (State(), c) == Fork.Fork(old(State()), r, g)
    {
      pml4 := r;
      c := NewAddressSpace();
      ghost var spawned := State();
      ShareRange(r, c, CodePages(g));
      ShareRange(r, c, StackPages(g));
      ForkPagesConcat(spawned, r, c, CodePages(g), StackPages(g));
      pml4 := r;
      ghost var shared := State();
      var k := 0;
      while k < KERNEL_STACK_PAGES
        invariant 0 <= k <= KERNEL_STACK_PAGES
        invariant MallocTimes(shared, KERNEL_STACK_PAGES) == MallocTimes(State(), KERNEL_STACK_PAGES - k)
      {
        var n := MallocPage();
        k := k + 1;
      }
    }

    /** The mapping half of LoadElf: a new root, the program's pages with the permissions of their
        segments, and a kernel stack. */
    method LoadProgram(ps: seq<Page>) returns (c: nat)
      modifies this, physFrames
      ensures (State(), c) == Load(old(State()), ps)
    {
      hide Alloc; hide FindFree; hide CreateUserMemory; hide Malloc;
      var previous := pml4;
      c := NewAddressSpace();
      pml4 := c;
      ghost var created := State();
      var i := 0;
      while i < |ps|
        invariant 0 <= i <= |ps| && LoadPages(created, ps) == LoadPages(State(), ps[i..])
      {
        var f := FindNextFreePhysical();
        var outcome := AllocPage(ps[i].n, f, PageFlags(ps[i]), ps[i].xd);
        assert ps[i..][1..] == ps[i + 1..];
        i := i + 1;
      }
      ghost var loaded := State();
      var k := 0;
      while k < KERNEL_STACK_PAGES
        invariant 0 <= k <= KERNEL_STACK_PAGES
        invariant MallocTimes(loaded, KERNEL_STACK_PAGES) == MallocTimes(State(), KERNEL_STACK_PAGES - k)
      {
        var n := MallocPage();
        k := k + 1;
      }
      pml4 := previous;
    }

    /** The stack-growth loop of HandlePageFault: maps `gap` pages upwards from n, the first
        of them to the frame f found beforehand. */
    method GrowLoop(n: nat, f0: nat, gap: nat, pages: nat) returns (pages': nat)
      requires f0 == FindFree(physFrames[..])
      modifies this, physFrames
      ensures State() == GrowStack(old(State()), n, gap) && pages' == pages + gap
    {
      hide Alloc; hide FindFree; hide GrowStack; hide MapFresh;
      var f := f0;
      var i := 0;
      pages' := pages;
      while i < gap
        invariant 0 <= i <= gap
        invariant f == FindFree(physFrames[..]) && pages' == pages + i
        invariant GrowStack(old(State()), n, gap) == GrowStack(State(), n + i, gap - i)
      {
        GrowStep(State(), n + i, gap - i);
        var outcome := AllocPage(n + i, f, USER_FLAGS, true);
        f := FindNextFreePhysical();
        pages' := pages' + 1;
        i := i + 1;
      }
      GrowDone(State(), n + i);
    }

    /** The branch of HandlePageFault for a page that is not CoW: grows the stack page by page, or
        maps the one page, mapped or not. */
    method ServeFault(r: nat, g: Region, n: nat) returns (g': Region)
      modifies this, physFrames
      ensures (State(), g') == DemandFault(old(State()), r, g, n)
    {
      hide EnsureTo; hide Alloc; hide FindFree; hide GrowStack;
      pml4 := r;
      var pt := EntryTable(n);
      var f := FindNextFreePhysical();
      if InStackWindow(g, n) {
        var pages := GrowLoop(n, f, StackGap(g, n), g.stackPages);
        g' := g.(stackPages := pages);
      } else {
        g' := g.(pages := g.pages + 1);
        var outcome := AllocPage(n, f, USER_FLAGS, false);
      }
    }

    /** HandlePageFault.  What follows the verdict to kill is FreeTaskMemory. */
    method HandlePageFault(r: nat, g: Region, addr: nat) returns (g': Region, verdict: Verdict)
      modifies this, physFrames
      ensures (State(), g', verdict) == PageFault(old(State()), r, g, addr)
    {
      hide EnsureTo; hide Alloc; hide FindFree; hide CowFault; hide DemandFault; hide Kills; hide Leaf;
      var n := addr / PAGE_SIZE;
      if n < USER_PAGES && Kills(g, addr) {
        return g, Killed;
      }
      if n < USER_PAGES {
        pml4 := r;
        var pt := EntryTable(n);
        if Leaf(mem, r, n).cow {
          ResolveCow(n);
          return g, Unshares;
        }
        g' := ServeFault(r, g, n);
        return g', Verdict.Maps;
      }
      var f := FindNextFreePhysical();
      var outcome := AllocPage(n, f, KERNEL_FLAGS, false);
      return g, MapsKernel;
    }

    // -------------------------------------------------------------------------------
    // Teardown
    // -------------------------------------------------------------------------------

    /** find_first_present.  The loop runs one slot past the table; what it reads there does
        not matter. */
    method FindFirstPresent(t: seq<Word>, beyond: Word) returns (i: nat)
      requires |t| == ENTRIES
      ensures i == FirstPresent(t)
    {
      var k := 0;
      var found := false;
      while k <= ENTRIES && !found
        invariant 0 <= k <= ENTRIES + 1
        invariant found ==> k > 0 && FirstPresent(t) == k - 1
        invariant !found ==> FirstPresent(t) == (if k <= ENTRIES then FirstPresentFrom(t, k) else ENTRIES)
      {
        found := if k < ENTRIES then t[k].p else beyond.p;
        k := k + 1;
      }
      return k - 1;
    }

    /** The innermost loop: clears a second-level table. */
    method ClearPd(pd: nat, beyond: Word)
      requires pd < |mem| && |mem[pd]| == ENTRIES
      modifies this`mem
      ensures Cleared(old(mem), mem, {pd})
    {
      var i := FindFirstPresent(mem[pd], beyond);
      while i < ENTRIES
        invariant |mem| == |old(mem)| && |mem[pd]| == ENTRIES
        invariant forall f :: 0 <= f < |mem| && f != pd ==> mem[f] == old(mem)[f]
        invariant forall j :: 0 <= j < ENTRIES ==>
                    mem[pd][j] == old(mem)[pd][j] || (old(mem)[pd][j].p && mem[pd][j] == ZERO)
        invariant i == FirstPresent(mem[pd])
        decreases PresentCount(mem[pd])
      {
        ClearOneCounts(mem[pd], i);
        mem := Poke(mem, pd, i, ZERO);
        i := FindFirstPresent(mem[pd], beyond);
      }
    }

    /** The middle loop: clears a third-level table and the tables it names. */
    method ClearPdpt(t: nat, beyond: Word)
      requires t < |mem| && |mem[t]| == ENTRIES
      requires forall c :: c in Children(mem, t, ENTRIES) ==> c < |mem| && |mem[c]| == ENTRIES && c != t
      modifies this`mem
      ensures Cleared(old(mem), mem, {t} + Children(old(mem), t, ENTRIES))
    {
      ghost var m0 := mem;
      var i := FindFirstPresent(mem[t], beyond);
      PdptStart(m0, t);
      hide PdptProgress; hide Cleared; hide Children;
      while i < ENTRIES
        invariant |mem| == |m0| && |mem[t]| == ENTRIES
        invariant PdptProgress(m0, mem, t)
        invariant i == FirstPresent(mem[t])
        decreases PresentCount(mem[t])
      {
        ghost var m1 := mem;
        PdptNext(m0, m1, t, i);
        ClearPd(mem[t][i].frame, beyond);
        PdptStep(m0, m1, mem, t, i);
        ClearOneCounts(mem[t], i);
        mem := Poke(mem, t, i, ZERO);
        i := FindFirstPresent(mem[t], beyond);
      }
      PdptDone(m0, mem, t);
    }

    /** free_task_memory: clears every user table of the address space level by level, wipes
        its root, and makes sure that it is no longer the active one.  The root is a root no more. */
    method FreeTaskMemory(root: nat, kernelRoot: nat, beyond: Word)
      requires Tree(mem, role) && IsRoot(role, root) && kernelRoot != root
      modifies this`mem, this`pml4, this`role
      ensures State() == Exit(old(State()), root, kernelRoot)
      ensures |mem| == |old(mem)| && mem[root] == Zeros()
      ensures Cleared(old(mem)[root := Zeros()], mem, Pdpts(old(mem), root) + Pds(old(mem), root))
      ensures pml4 != root && (old(pml4) != root ==> pml4 == old(pml4))
    {
      hide BranchIntact; hide BranchGone; hide Pdpts; hide Pds; hide Linked; hide Cleared; hide Children; hide Torn;
      ghost var m0 := mem;
      AllIntact(m0, root);
      var last := pml4;
      pml4 := root;
      var i := FindFirstPresent(mem[root], beyond);
      while i < KERNEL_SLOT
        invariant |mem| == |m0| && |mem[root]| == ENTRIES && role == old(role)
        invariant forall f :: 0 <= f < |m0| && f != root && f !in Pdpts(m0, root) + Pds(m0, root) ==> mem[f] == m0[f]
        invariant forall k :: 0 <= k < KERNEL_SLOT ==> BranchIntact(m0, mem, root, k) || BranchGone(m0, mem, root, k)
        invariant i == FirstPresent(mem[root])
        decreases PresentCount(mem[root])
      {
        var t := mem[root][i].frame;
        ghost var m1 := mem;
        IntactBranch(m0, m1, role, root, i);
        ClearPdpt(t, beyond);
        ClearedBranch(m0, m1, mem, role, root, i);
        ClearOneCounts(mem[root], i);
        mem := Poke(mem, root, i, ZERO);
        forall k | 0 <= k < KERNEL_SLOT ensures BranchIntact(m0, mem, root, k) || BranchGone(m0, mem, root, k) {
          if k != i {
            OtherBranch(m0, m1, mem, role, root, i, k);
          }
        }
        i := FindFirstPresent(mem[root], beyond);
      }
      AllGone(m0, mem, role, root);
      WipedRoot(m0, mem, root);
      pml4 := kernelRoot;
      mem := Fill(mem, root, Zeros());
      if last != root {
        pml4 := last;
      }
      TornIsCleared(m0, mem, role, root);
      role := SetRole(role, root, Plain);
    }
  }

  lemma GrowDone(s: Sys, n: nat)
    ensures GrowStack(s, n, 0) == s
  {
  }

  lemma GrowStep(s: Sys, n: nat, k: nat)
    requires k > 0
    ensures GrowStack(s, n, k) == GrowStack(Alloc(s, n, FindFree(s.info), USER_FLAGS, true), n + 1, k - 1)
  {
  }

  /** One level of the walk, as EntryTable takes it. */
  lemma TableStep(s: Sys, n: nat, level: nat)
    requires 1 <= level < 4 && Table(EnsureTo(s, n, level + 1).mem, EnsureTo(s, n, level + 1).cur, n, level + 1).Some?
    ensures EnsureTo(s, n, level) ==
              Ensure(EnsureTo(s, n, level + 1), Table(EnsureTo(s, n, level + 1).mem, EnsureTo(s, n, level + 1).cur, n, level + 1).value,
                     Index(n, level + 1), WalkFlags(n))
  {
  }

  lemma {:induction false} StoppedWalk(s: Sys, n: nat, level: nat)
    requires 1 <= level <= 4
    requires Table(EnsureTo(s, n, level).mem, EnsureTo(s, n, level).cur, n, level).None?
    ensures EnsureTo(s, n, 1) == EnsureTo(s, n, level)
    ensures Table(EnsureTo(s, n, level).mem, EnsureTo(s, n, level).cur, n, 1).None?
    decreases level
  {
    if level > 1 {
      StoppedWalk(s, n, level - 1);
    }
  }

  /** Sharing two ranges one after the other shares their concatenation. */
  lemma {:induction false} ForkPagesConcat(s: Sys, r: nat, c: nat, a: seq<nat>, b: seq<nat>)
    ensures ForkPages(s, r, c, a + b) == ForkPages(ForkPages(s, r, c, a), r, c, b)
    decreases |a|
  {
    hide ForkPage;
    if a == [] {
      assert a + b == b;
    } else {
      assert (a + b)[1..] == a[1..] + b;
      ForkPagesConcat(ForkPage(s, r, c, a[0]), r, c, a[1..], b);
    }
  }
}
