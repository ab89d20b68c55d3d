/**
  Where the memory manager's guarantees end: exactly when its operations keep the
  invariant, and what happens beyond that.
 */
module MemoryLimits {
  import opened Words
  import opened PageTables
  import opened AddressSpace
  import opened CopyOnWrite

  // ---------------------------------------------------------------------------------
  // Exhausted memory: the allocator answers 0
  // ---------------------------------------------------------------------------------

  /** Table creation consumes a free frame, and disturbs no other, exactly when the slot is
      taken or a frame is free; otherwise it makes a table of the kernel's frame 0. */
  lemma EnsureExtendsIff(s: Sys, t: nat, i: nat, flags: Word)
    requires Inv(s) && t < |s.mem| && i < ENTRIES && s.role[t].Tab? && s.role[t].level > 1
    ensures Extends(s, Ensure(s, t, i, flags)) <==> s.mem[t][i].p || Free(s.info) != {}
    ensures !s.mem[t][i].p && Free(s.info) == {} ==>
              Ensure(s, t, i, flags).mem[0] == Zeros() && Ensure(s, t, i, flags).mem[t][i].frame == 0
  {
    if !s.mem[t][i].p {
      if Free(s.info) != {} {
        EnsureExtends(s, t, i, flags);
      } else {
        FindFreeSpec(s.info);
        assert !Kept(s, Ensure(s, t, i, flags), 0);
      }
    }
  }

  /** A copy made when memory is exhausted maps the kernel's frame 0, writable. */
  lemma CowExhausted(s: Sys, n: nat)
    requires Inv(s) && n < USER_PAGES && Leaf(s.mem, s.cur, n).p && Leaf(s.mem, s.cur, n).cow
    requires Free(s.info) == {} && InfoAt(s.info, Leaf(s.mem, s.cur, n).frame).refcount > 1
    ensures var s' := CowFault(s, n);
            !Inv(s') && Leaf(s'.mem, s.cur, n) == Unshared(Leaf(s.mem, s.cur, n), 0)
  {
    var w := Leaf(s.mem, s.cur, n);
    MappedFrame(s, s.cur, n);
    WalkIsIdle(s, n);
    var s1 := s.(info := SetInfo(s.info, w.frame, DropReference(InfoAt(s.info, w.frame))));
    assert Free(s1.info) == Free(s.info);
    FindFreeSpec(s1.info);
    TableRole(s.mem, s.role, s.cur, n, 1);
    var t := Table(s.mem, s.cur, n, 1).value;
    var e := Unshared(w, 0);
    var m1: Mem := Poke(s.mem, t, Index(n, 1), e);
    ExhaustedLeaf(s.mem, s.role, s.cur, n, e, Content(s.mem, w.frame));
    var s' := CowFault(s, n);
    assert s'.mem == Fill(m1, 0, Content(s.mem, w.frame));
    assert s'.mem[t][Index(n, 1)] == e && !UserFrame(s', 0);
  }

  lemma ExhaustedLeaf(m: Mem, role: seq<Role>, r: nat, n: nat, e: Word, content: seq<Word>)
    requires Tree(m, role) && IsRoot(role, r) && n < ALL_PAGES && Table(m, r, n, 1).Some?
    requires 0 < |m| && role[0] == Plain && |content| == ENTRIES
    ensures Leaf(Fill(Poke(m, Table(m, r, n, 1).value, Index(n, 1), e), 0, content), r, n) == e
  {
    TableRole(m, role, r, n, 1);
    var t := Table(m, r, n, 1).value;
    FillTable(m, role, 0, content, r, n, 1);
    assert Tree(Fill(m, 0, content), role) by {
      FillTree(m, role, 0, content);
    }
    PokeTable(Fill(m, 0, content), role, t, Index(n, 1), e, r, n, 1);
    FillPoke(m, t, Index(n, 1), e, 0, content);
  }

  lemma FillTree(m: Mem, role: seq<Role>, f: nat, content: seq<Word>)
    requires Tree(m, role) && f < |m| && role[f] == Plain && |content| == ENTRIES
    ensures Tree(Fill(m, f, content), role)
  {
    var m': Mem := Fill(m, f, content);
    forall g, j | 0 <= g < |m| && 0 <= j < ENTRIES && role[g].Tab? && role[g].level > 1 && m'[g][j].p
      ensures m'[g][j].frame < |m| && role[m'[g][j].frame] == ChildRole(role[g], j)
    {
      assert m'[g][j] == m[g][j];
    }
  }

  /** Resolving a mapped CoW page keeps frames owned by whom they should be if and only if it
      needs no copy or a frame is free. */
  lemma CowKeepsOwnershipIff(s: Sys, n: nat)
    requires Safe(s) && n < USER_PAGES && Leaf(s.mem, s.cur, n).p && Leaf(s.mem, s.cur, n).cow
    ensures Inv(CowFault(s, n)) <==>
              InfoAt(s.info, Leaf(s.mem, s.cur, n).frame).refcount <= 1 || Free(s.info) != {}
  {
    hide CowFault; hide Leaf; hide Counted; hide Exclusive; hide Linked; hide LeavesOwned; hide KernelHalfShared;
    if InfoAt(s.info, Leaf(s.mem, s.cur, n).frame).refcount <= 1 || Free(s.info) != {} {
      CowFaultSafe(s, n);
    } else {
      CowExhausted(s, n);
    }
  }

  // ---------------------------------------------------------------------------------
  // A hole in a forked range
  // ---------------------------------------------------------------------------------

  /** Rewriting the entry of page n when its table exists. */
  lemma SetLeafAt(s: Sys, n: nat, e: Word)
    requires Inv(s) && n < USER_PAGES && Table(s.mem, s.cur, n, 1).Some?
    ensures var s' := SetLeaf(s, n, e);
            && EnsureTo(s, n, 1) == s
            && Leaf(s'.mem, s.cur, n) == e && Table(s'.mem, s.cur, n, 1) == Table(s.mem, s.cur, n, 1)
            && s'.info == s.info && s'.role == s.role && s'.cur == s.cur
            && (!e.p ==> Inv(s'))
            && (e.p && !UserFrame(s, e.frame) ==> !Inv(s'))
  {
    NothingMissing(s.mem, s.cur, n, 1);
    EnsureToKeeps(s, n, 1);
    SetLeafHere(s, n, e, s.cur);
    TableRole(s.mem, s.role, s.cur, n, 1);
    var s' := SetLeaf(s, n, e);
    if !e.p {
      SetLeafInv(s, n, e);
    } else {
      assert s'.mem[Table(s.mem, s.cur, n, 1).value][Index(n, 1)] == e;
    }
  }

  /** The walk that fork makes for an unmapped page. */
  lemma HoleWalk(s: Sys, r: nat, n: nat)
    requires Inv(s) && IsRoot(s.role, r) && n < USER_PAGES && |Free(s.info)| >= Missing(s.mem, r, n, 1)
    ensures var s1 := EnsureTo(s.(cur := r), n, 1);
            && Inv(s1) && s1.cur == r && Table(s1.mem, r, n, 1).Some? && s1.info[0] == s.info[0]
            && (forall r': nat :: IsRoot(s.role, r') ==> IsRoot(s1.role, r') && Leaf(s1.mem, r', n) == Leaf(s.mem, r', n))
  {
    hide Linked; hide LeavesOwned; hide KernelHalfShared; hide Leaf; hide EnsureTo;
    SameButCur(s, r);
    EnsureToKeeps(s.(cur := r), n, 1);
    SameRoots(s.(cur := r), EnsureTo(s.(cur := r), n, 1));
    assert Kept(s.(cur := r), EnsureTo(s.(cur := r), n, 1), 0);
  }

  /** fork marks the entry of an unmapped page CoW and gives the child nothing; the parent's
      next fault on that page then maps the kernel's frame 0 there. */
  lemma ForkHole(s: Sys, r: nat, c: nat, n: nat)
    requires Inv(s) && IsRoot(s.role, r) && IsRoot(s.role, c) && r != c && n < USER_PAGES
    requires !Leaf(s.mem, r, n).p && Leaf(s.mem, r, n).frame == 0 && s.info[0].refcount <= 1
    requires |Free(s.info)| >= Missing(s.mem, r, n, 1)
    ensures var s1 := ForkPage(s, r, c, n); var s2 := CowFault(s1.(cur := r), n);
            && Leaf(s1.mem, c, n) == Leaf(s.mem, c, n)
            && Leaf(s2.mem, r, n) == Unshared(Shared(Leaf(s.mem, r, n)), 0)
            && !Inv(s2)
  {
    HoleWalk(s, r, n);
    var s0 := EnsureTo(s.(cur := r), n, 1);
    var w := Shared(Leaf(s.mem, r, n));
    SetLeafAt(s0, n, w);
    SetLeafElsewhere(s0, n, w, c, n);
    var s1 := SetLeaf(s0, n, w);
    assert s1.info[0].kernel;
    hide SetLeaf; hide Leaf; hide EnsureTo; hide Linked; hide LeavesOwned; hide KernelHalfShared;
    assert ForkPage(s, r, c, n) == s1.(cur := c);
    SetLeafAt(s1, n, Unshared(w, 0));
    assert CowFault(s1, n) == SetLeaf(s1, n, Unshared(w, 0));
    assert s1.(cur := c).(cur := r) == s1;
  }

  /** The parent's next fault on a page it has forked keeps frames owned by whom they should be if
      and only if the page was mapped when it was forked: fork is safe over mapped ranges only. */
  lemma ForkHoleIff(s: Sys, r: nat, c: nat, n: nat)
    requires Inv(s) && IsRoot(s.role, r) && IsRoot(s.role, c) && r != c && n < USER_PAGES && s.info[0].refcount <= 1
    requires Leaf(s.mem, r, n).p || Leaf(s.mem, r, n).frame == 0
    requires |Free(s.info)| >= Missing(s.mem, r, n, 1) && |Free(s.info)| >= Missing(s.mem, c, n, 1)
    requires Free(ForkPage(s, r, c, n).info) != {}
    ensures Inv(CowFault(ForkPage(s, r, c, n).(cur := r), n)) <==> Leaf(s.mem, r, n).p
  {
    hide ForkPage; hide CowFault; hide Leaf; hide Inv; hide Missing;
    if Leaf(s.mem, r, n).p {
      ForkPageFacts(s, r, c, n);
      var s1 := ForkPage(s, r, c, n);
      SameButCur(s1, r);
      ResolveInv(s1.(cur := r), n);
    } else {
      ForkHole(s, r, c, n);
    }
  }

  lemma ResolveInv(s: Sys, n: nat)
    requires Inv(s) && CanResolve(s, n)
    ensures Inv(CowFault(s, n))
  {
    hide CowFault; hide Leaf; hide Linked; hide LeavesOwned; hide KernelHalfShared;
    if InfoAt(s.info, Leaf(s.mem, s.cur, n).frame).refcount <= 1 {
      CowInPlaceFacts(s, n);
    } else {
      CowCopyFacts(s, n);
    }
  }

  // ---------------------------------------------------------------------------------
  // Kernel faults and kernel slots
  // ---------------------------------------------------------------------------------

  /** The kernel-address branch of the page-fault handler. */
  function KernelFault(s: Sys, n: nat): Sys {
    Alloc(s, n, FindFree(s.info), KERNEL_FLAGS, false)
  }

  /** It maps a frame without reserving it: the next allocation returns the same frame, unless the
      walk lacked a table; then the frame mapped has been taken for a table as well. */
  lemma KernelFaultReservesIff(s: Sys, n: nat)
    requires Inv(s) && USER_PAGES <= n < ALL_PAGES && Free(s.info) != {} && |Free(s.info)| >= Missing(s.mem, s.cur, n, 1)
    ensures var s' := KernelFault(s, n); var f := FindFree(s.info);
            && Leaf(s'.mem, s.cur, n) == Word(f, true, true, false, false, false, 0, 0)
            && (f in Free(s'.info) && FindFree(s'.info) == f <==> Table(s.mem, s.cur, n, 1).Some?)
            && (Table(s.mem, s.cur, n, 1).None? ==> RoleOf(s'.role, f).Tab? && InfoAt(s'.info, f).kernel)
  {
    FindFreeSpec(s.info);
    var f := FindFree(s.info);
    EnsureToKeeps(s, n, 1);
    var s2 := EnsureTo(s, n, 1);
    SetLeafHere(s2, n, NewEntry(f, KERNEL_FLAGS, false), s.cur);
    hide Linked; hide LeavesOwned; hide KernelHalfShared; hide Leaf; hide FindFree;
    if Table(s.mem, s.cur, n, 1).Some? {
      NothingMissing(s.mem, s.cur, n, 1);
    } else {
      WalkTakes(s, n, 1);
    }
  }

  /** A kernel-address fault does not look whether the page is mapped, either: it keeps every kernel
      translation of the current address space if and only if the page was not mapped, or just as
      the fault maps it. */
  lemma KernelFaultKeepsIff(s: Sys, n: nat)
    requires Inv(s) && USER_PAGES <= n < ALL_PAGES && Free(s.info) != {} && |Free(s.info)| >= Missing(s.mem, s.cur, n, 1)
    ensures (forall k :: USER_PAGES <= k < ALL_PAGES && Leaf(s.mem, s.cur, k).p ==>
               Leaf(KernelFault(s, n).mem, s.cur, k) == Leaf(s.mem, s.cur, k))
            <==> (Leaf(s.mem, s.cur, n).p ==> Leaf(s.mem, s.cur, n) == NewEntry(FindFree(s.info), KERNEL_FLAGS, false))
  {
    FindFreeSpec(s.info);
    assert IsRoot(s.role, s.cur);
    MapKernelIsLocal(s, n, NewEntry(FindFree(s.info), KERNEL_FLAGS, false));
    hide Leaf; hide MapPage; hide FindFree; hide Inv; hide OthersKept;
  }

  /** A walk that lacks a table takes the first free frame for the first one it lacks. */
  lemma {:induction false} WalkTakes(s: Sys, n: nat, level: nat)
    requires Inv(s) && n < ALL_PAGES && 1 <= level <= 4 && Table(s.mem, s.cur, n, level).None?
    requires |Free(s.info)| >= Missing(s.mem, s.cur, n, level)
    ensures var s' := EnsureTo(s, n, level); var f := FindFree(s.info);
            f < |s.info| == |s'.info| == |s'.role| && f !in Free(s'.info) && s'.role[f].Tab? && s'.info[f].kernel
    decreases 4 - level
  {
    hide Linked; hide LeavesOwned; hide KernelHalfShared; hide Leaf;
    FindFreeSpec(s.info);
    EnsureToKeeps(s, n, level + 1);
    var s1 := EnsureTo(s, n, level + 1);
    var t := Table(s1.mem, s.cur, n, level + 1).value;
    if Table(s.mem, s.cur, n, level + 1).Some? {
      TableRole(s.mem, s.role, s.cur, n, level + 1);
      EnsureHooks(s, t, Index(n, level + 1), WalkFlags(n));
    } else {
      WalkTakes(s, n, level + 1);
      EnsureStep(s1, n, level);
      assert Kept(s1, EnsureTo(s, n, level), FindFree(s.info));
    }
  }

  /** A kernel page under a slot that another root lacks is not seen there once mapped: the
      kernel halves agree under the kernel's own slot only. */
  lemma OtherSlotsDisagree(s: Sys, r: nat, n: nat, e: Word)
    requires Inv(s) && IsRoot(s.role, r) && USER_PAGES <= n < ALL_PAGES && !s.mem[r][Index(n, 4)].p
    requires |Free(s.info)| >= Missing(s.mem, s.cur, n, 1)
    requires r != s.cur && e.p
    ensures var s' := MapPage(s, n, e);
            Leaf(s'.mem, s.cur, n) == e && Leaf(s'.mem, r, n) == ZERO
  {
    hide EnsureTo; hide LeavesOwned; hide KernelHalfShared; hide Missing;
    EnsureToKeeps(s, n, 1);
    var s2 := EnsureTo(s, n, 1);
    SameRoots(s, s2);
    SetLeafHere(s2, n, e, s.cur);
    NoneBelow(s.mem, r, n, 3);
    assert Leaf(s2.mem, r, n) == ZERO;
    TableRole(s2.mem, s2.role, s2.cur, n, 1);
    OtherRootUntouched(s, n, r, 1);
    assert Table(s2.mem, r, n, 3).None?;
    NoTables(s2.mem, r, n, 1);
    PokeLeaf(s2.mem, s2.role, Table(s2.mem, s.cur, n, 1).value, Index(n, 1), e, r, n);
  }

  lemma {:induction false} NoTables(m: Mem, r: nat, n: nat, level: nat)
    requires 1 <= level <= 3 && Table(m, r, n, 3).None?
    ensures Table(m, r, n, level).None?
    decreases 3 - level
  {
    if level < 3 {
      NoTables(m, r, n, level + 1);
    }
  }

  lemma EnsureTouches(s: Sys, t: nat, i: nat, flags: Word, r: nat)
    requires Inv(s) && t < |s.mem| && i < ENTRIES && s.role[t].Tab? && s.role[t].level > 1
    requires s.mem[t][i].p || Free(s.info) != {}
    requires IsRoot(s.role, r) && r != t
    ensures |Ensure(s, t, i, flags).mem| == |s.mem| && Ensure(s, t, i, flags).mem[r] == s.mem[r]
  {
    FindFreeSpec(s.info);
  }

  /** The walk writes no root but its own. */
  lemma {:induction false} OtherRootUntouched(s: Sys, n: nat, r: nat, level: nat)
    requires Inv(s) && IsRoot(s.role, r) && r != s.cur && n < ALL_PAGES && 1 <= level <= 4
    requires |Free(s.info)| >= Missing(s.mem, s.cur, n, level)
    ensures |EnsureTo(s, n, level).mem| == |s.mem| && EnsureTo(s, n, level).mem[r] == s.mem[r]
    decreases 4 - level
  {
    if level < 4 {
      hide Ensure; hide Inv; hide Leaf; hide Kept; hide Extends; hide Free;
      OtherRootUntouched(s, n, r, level + 1);
      EnsureToKeeps(s, n, level + 1);
      var s1 := EnsureTo(s, n, level + 1);
      SameRoots(s, s1);
      StepTouches(s1, n, level, r);
    }
  }

  /** One level of the walk of an active root leaves another root alone. */
  lemma StepTouches(s: Sys, n: nat, level: nat, r: nat)
    requires Inv(s) && IsRoot(s.role, r) && r != s.cur && n < ALL_PAGES && 1 <= level < 4
    requires Table(s.mem, s.cur, n, level + 1).Some?
    requires Table(s.mem, s.cur, n, level).Some? || |Free(s.info)| > 0
    ensures var s' := Ensure(s, Table(s.mem, s.cur, n, level + 1).value, Index(n, level + 1), WalkFlags(n));
            |s'.mem| == |s.mem| && s'.mem[r] == s.mem[r]
  {
    TableRole(s.mem, s.role, s.cur, n, level + 1);
    var t := Table(s.mem, s.cur, n, level + 1).value;
    assert |Free(s.info)| > 0 ==> Free(s.info) != {};
    hide Ensure; hide Linked; hide LeavesOwned; hide KernelHalfShared;
    EnsureTouches(s, t, Index(n, level + 1), WalkFlags(n), r);
  }
}
