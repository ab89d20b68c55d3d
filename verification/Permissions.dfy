/**
  What the processor lets a process do: the permission bits of all four entries of a walk, from the
  flags that EnsureEntry and alloc_page write (src/kernel/drivers/LowLevel/Memory.c) to whole runs.
 */
module Permissions {
  import opened Words
  import opened PageTables
  import opened AddressSpace

  // ---------------------------------------------------------------------------------
  // The processor's rule
  // ---------------------------------------------------------------------------------

  /** The entry for page n in the table of that level on its walk. */
  function EntryAt(m: Mem, r: nat, n: nat, level: nat): Word
    requires 1 <= level <= 4
  {
    match Table(m, r, n, level)
    case None => ZERO
    case Some(t) => Peek(m, t, Index(n, level))
  }

  /** User mode may read the page if every entry of the walk is present and the user's ... */
  predicate UserReads(m: Mem, r: nat, n: nat) {
    forall level :: 1 <= level <= 4 ==> EntryAt(m, r, n, level).p && EntryAt(m, r, n, level).u
  }

  /** ... write it if they are writable besides, and execute it if none forbids that. */
  predicate UserWrites(m: Mem, r: nat, n: nat) {
    UserReads(m, r, n) && forall level :: 1 <= level <= 4 ==> EntryAt(m, r, n, level).w
  }

  predicate UserExecutes(m: Mem, r: nat, n: nat) {
    UserReads(m, r, n) && forall level :: 1 <= level <= 4 ==> !EntryAt(m, r, n, level).xd
  }

  // ---------------------------------------------------------------------------------
  // What one walk builds
  // ---------------------------------------------------------------------------------

  /** The entry of that level is the one that was there or, if its table below was missing, a new
      one: writable, executable, and the user's exactly in the user half. */
  ghost predicate Built(s: Sys, s': Sys, n: nat, level: nat)
    requires 2 <= level <= 4
  {
    var e := EntryAt(s'.mem, s.cur, n, level);
    if Table(s.mem, s.cur, n, level - 1).Some? then e == EntryAt(s.mem, s.cur, n, level)
    else e.p && e.w && !e.xd && !e.cow && (e.u <==> n < USER_PAGES)
  }

  lemma {:induction false} EnsureToBuilds(s: Sys, n: nat, to: nat, level: nat)
    requires Inv(s) && n < ALL_PAGES && 1 <= to < level <= 4
    requires |Free(s.info)| >= Missing(s.mem, s.cur, n, to)
    ensures Built(s, EnsureTo(s, n, to), n, level)
    decreases 4 - to
  {
    hide Inv; hide Leaf; hide EntryAt; hide Extends; hide Ensure; hide Table; hide Free;
    if Table(s.mem, s.cur, n, to).Some? {
      EnsureToKeeps(s, n, to);
      TablesAbove(s.mem, s.cur, n, to, level - 1);
    } else {
      WalkStep(s, n, to);
      if level > to + 1 {
        EnsureToBuilds(s, n, to + 1, level);
        HigherEntry(EnsureTo(s, n, to + 1), n, to, level);
      } else {
        NewEntryBuilt(EnsureTo(s, n, to + 1), n, to);
      }
    }
  }

  lemma WalkStep(s: Sys, n: nat, level: nat)
    requires Inv(s) && n < ALL_PAGES && 1 <= level < 4 && Table(s.mem, s.cur, n, level).None?
    requires |Free(s.info)| >= Missing(s.mem, s.cur, n, level)
    ensures var s1 := EnsureTo(s, n, level + 1);
            && |Free(s.info)| >= Missing(s.mem, s.cur, n, level + 1) && s1.cur == s.cur && StepCreates(s1, n, level)
            && EnsureTo(s, n, level) == Ensure(s1, Table(s1.mem, s1.cur, n, level + 1).value, Index(n, level + 1), WalkFlags(n))
  {
    hide LeavesOwned; hide KernelHalfShared; hide Leaf; hide Linked; hide Ensure;
    EnsureToKeeps(s, n, level + 1);
  }

  lemma {:induction false} TablesAbove(m: Mem, r: nat, n: nat, level: nat, above: nat)
    requires 1 <= level <= above <= 4 && Table(m, r, n, level).Some?
    ensures Table(m, r, n, above).Some?
    decreases above - level
  {
    if level < above {
      TablesAbove(m, r, n, level + 1, above);
    }
  }

  /** The next table of the walk is missing, and there is a frame for it. */
  ghost predicate StepCreates(s: Sys, n: nat, level: nat) {
    && Inv(s) && n < ALL_PAGES && 1 <= level < 4 && Free(s.info) != {}
    && Table(s.mem, s.cur, n, level + 1).Some? && Table(s.mem, s.cur, n, level).None?
  }

  lemma NewEntryBuilt(s: Sys, n: nat, level: nat)
    requires StepCreates(s, n, level)
    ensures var s' := Ensure(s, Table(s.mem, s.cur, n, level + 1).value, Index(n, level + 1), WalkFlags(n));
            var e := EntryAt(s'.mem, s.cur, n, level + 1);
            e.p && e.w && !e.xd && !e.cow && (e.u <==> n < USER_PAGES)
  {
    hide LeavesOwned; hide KernelHalfShared; hide Leaf;
    TableRole(s.mem, s.role, s.cur, n, level + 1);
    var t, i, f := Table(s.mem, s.cur, n, level + 1).value, Index(n, level + 1), FindFree(s.info);
    var e := WalkFlags(n).(frame := f, p := true);
    EnsureHooks(s, t, i, WalkFlags(n));
    HookWalk(s.mem, s.role, t, i, f, e, s.cur, n, level + 1);
    assert Peek(Hook(s.mem, t, i, f, e), t, i) == e;
  }

  lemma HigherEntry(s: Sys, n: nat, level: nat, above: nat)
    requires StepCreates(s, n, level) && level + 1 < above <= 4
    ensures var s' := Ensure(s, Table(s.mem, s.cur, n, level + 1).value, Index(n, level + 1), WalkFlags(n));
            EntryAt(s'.mem, s.cur, n, above) == EntryAt(s.mem, s.cur, n, above)
  {
    hide LeavesOwned; hide KernelHalfShared; hide Leaf;
    TableRole(s.mem, s.role, s.cur, n, level + 1);
    TableRole(s.mem, s.role, s.cur, n, above);
    var t, i, f := Table(s.mem, s.cur, n, level + 1).value, Index(n, level + 1), FindFree(s.info);
    var e := WalkFlags(n).(frame := f, p := true);
    EnsureHooks(s, t, i, WalkFlags(n));
    HookWalk(s.mem, s.role, t, i, f, e, s.cur, n, above);
  }

  /** Writing the last entry of a walk leaves those above it. */
  lemma SetLeafEntry(s: Sys, n: nat, e: Word, level: nat)
    requires Inv(s) && n < ALL_PAGES && Table(s.mem, s.cur, n, 1).Some? && 2 <= level <= 4
    ensures EntryAt(SetLeaf(s, n, e).mem, s.cur, n, level) == EntryAt(s.mem, s.cur, n, level)
  {
    hide LeavesOwned; hide KernelHalfShared; hide Linked;
    TableRole(s.mem, s.role, s.cur, n, 1);
    TableRole(s.mem, s.role, s.cur, n, level);
    PokeTable(s.mem, s.role, Table(s.mem, s.cur, n, 1).value, Index(n, 1), e, s.cur, n, level);
  }

  /** Mapping a page builds, on its walk, entries that let the user through exactly in the user half,
      and leaves the entries that it finds. */
  lemma MapPageBuilds(s: Sys, n: nat, e: Word, level: nat)
    requires Inv(s) && n < ALL_PAGES && 2 <= level <= 4 && |Free(s.info)| >= Missing(s.mem, s.cur, n, 1)
    ensures Built(s, MapPage(s, n, e), n, level)
  {
    hide LeavesOwned; hide KernelHalfShared; hide Linked; hide EnsureTo; hide EntryAt; hide Leaf;
    EnsureToKeeps(s, n, 1);
    EnsureToBuilds(s, n, 1, level);
    SetLeafEntry(EnsureTo(s, n, 1), n, e, level);
  }

  /** alloc_page at a user page: the entries it adds to the walk are present, writable and the user's. */
  lemma AllocBuilds(s: Sys, n: nat, frame: nat, flags: Word, xd: bool, level: nat)
    requires Inv(s) && CanAlloc(s, n, frame) && 2 <= level <= 4
    ensures var e := EntryAt(Alloc(s, n, frame, flags, xd).mem, s.cur, n, level);
            if Table(s.mem, s.cur, n, level - 1).Some? then e == EntryAt(s.mem, s.cur, n, level)
            else e.p && e.w && e.u && !e.xd && !e.cow
  {
    hide LeavesOwned; hide KernelHalfShared; hide Linked; hide EntryAt; hide Leaf; hide MapPage;
    ClaimInv(s, n, frame);
    var s1 := s.(info := s.info[frame := Claim(s.info[frame])]);
    MapPageBuilds(s1, n, NewEntry(frame, flags, xd), level);
    assert Alloc(s, n, frame, flags, xd) == MapPage(s1, n, NewEntry(frame, flags, xd));
  }

  /** malloc: those it adds are the kernel's alone, and so is its heap page. */
  lemma MallocBuilds(s: Sys, level: nat)
    requires Inv(s) && CanMalloc(s) && 1 <= level <= 4
    ensures var n := HeapPage(s); var e := EntryAt(Malloc(s).mem, s.cur, n, level);
            if level > 1 && Table(s.mem, s.cur, n, level - 1).Some? then e == EntryAt(s.mem, s.cur, n, level)
            else e.p && e.w && !e.u && !e.cow
  {
    hide LeavesOwned; hide KernelHalfShared; hide Linked; hide MapPage; hide FindFree;
    MallocKeeps(s);
    ReserveInv(s);
    if level > 1 {
      hide EntryAt;
      MapPageBuilds(Reserve(s), HeapPage(s), NewEntry(FindFree(s.info), KERNEL_FLAGS, true), level);
    }
  }

  // ---------------------------------------------------------------------------------
  // The invariant
  // ---------------------------------------------------------------------------------

  /** Slot i of a table of that role is part of some process's own half. */
  predicate UserSlot(role: Role, i: nat) {
    role.Tab? && role.owner.Space? && (role.level == 4 ==> i < KERNEL_SLOT)
  }

  /** A present entry is the user's exactly in the user half; above the last level it forbids nothing;
      and none is writable and copy-on-write. */
  predicate EntryOk(role: Role, i: nat, e: Word)
    requires role.Tab?
  {
    e.p ==> (e.u <==> UserSlot(role, i)) && (role.level > 1 ==> e.w && !e.xd) && (e.w ==> !e.cow)
  }

  ghost predicate FrameOk(role: Role, content: seq<Word>) {
    role.Tab? ==> forall i :: 0 <= i < |content| ==> EntryOk(role, i, content[i])
  }

  ghost predicate Permitted(s: Sys) {
    |s.role| == |s.mem| && forall f :: 0 <= f < |s.mem| ==> FrameOk(s.role[f], s.mem[f])
  }

  /** The slots that a walk meets belong to the half that its page does. */
  lemma SlotOf(r: nat, n: nat, level: nat)
    requires n < ALL_PAGES && 1 <= level <= 4
    ensures UserSlot(RoleAt(r, n, level), Index(n, level)) <==> n < USER_PAGES
  {
  }

  lemma WalkedOk(s: Sys, r: nat, n: nat, level: nat)
    requires Inv(s) && Permitted(s) && IsRoot(s.role, r) && n < ALL_PAGES && 1 <= level <= 4
    ensures var e := EntryAt(s.mem, r, n, level);
            e.p ==> (e.u <==> n < USER_PAGES) && (level > 1 ==> e.w && !e.xd) && (e.w ==> !e.cow)
  {
    hide LeavesOwned; hide KernelHalfShared; hide Linked; hide UserSlot; hide Index;
    TableRole(s.mem, s.role, r, n, level);
    SlotOf(r, n, level);
    if Table(s.mem, r, n, level).Some? {
      var t := Table(s.mem, r, n, level).value;
      assert FrameOk(s.role[t], s.mem[t]);
    }
  }

  /** A present leaf is reached through present entries. */
  lemma {:induction false} PresentAbove(m: Mem, r: nat, n: nat, level: nat)
    requires Leaf(m, r, n).p && 1 <= level <= 4
    ensures EntryAt(m, r, n, level).p
    decreases level
  {
    if level > 1 {
      if Table(m, r, n, level - 1).None? {
        NoneBelow(m, r, n, level - 1);
      }
    }
  }

  /** Under the invariant the processor lets a process do exactly what the last entry says: it may read
      the pages it has, write those whose entry is writable, and execute those whose entry does not
      forbid it; and it may use none of the kernel's. */
  lemma AccessIff(s: Sys, r: nat, n: nat)
    requires Inv(s) && Permitted(s) && IsRoot(s.role, r) && n < ALL_PAGES
    ensures var e := Leaf(s.mem, r, n); var mine := n < USER_PAGES && e.p;
            && (UserReads(s.mem, r, n) <==> mine)
            && (UserWrites(s.mem, r, n) <==> mine && e.w)
            && (UserExecutes(s.mem, r, n) <==> mine && !e.xd)
            && (UserWrites(s.mem, r, n) ==> !e.cow)
  {
    assert EntryAt(s.mem, r, n, 1) == Leaf(s.mem, r, n);
    hide Inv; hide Permitted; hide Leaf; hide EntryAt; hide Table;
    forall level | 1 <= level <= 4
      ensures Leaf(s.mem, r, n).p ==> EntryAt(s.mem, r, n, level).p
      ensures var e := EntryAt(s.mem, r, n, level);
              e.p ==> (e.u <==> n < USER_PAGES) && (level > 1 ==> e.w && !e.xd) && (e.w ==> !e.cow)
    {
      WalkedOk(s, r, n, level);
      if Leaf(s.mem, r, n).p {
        PresentAbove(s.mem, r, n, level);
      }
    }
    assert UserReads(s.mem, r, n) ==> EntryAt(s.mem, r, n, 1).p && EntryAt(s.mem, r, n, 1).u;
    assert UserWrites(s.mem, r, n) ==> EntryAt(s.mem, r, n, 1).w;
    assert UserExecutes(s.mem, r, n) ==> !EntryAt(s.mem, r, n, 1).xd;
  }
}
