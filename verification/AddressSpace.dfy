/**
  Physical frames and address spaces: the allocator, on-demand table creation, page
  mapping, kernel heap pages and new roots (src/kernel/drivers/LowLevel/Memory.c).
 */
module AddressSpace {
  import opened Wrappers
  import opened Words
  import opened PageTables

  /** One element of phys_frames: the reference count and the U, D and K flag bits. */
  datatype FrameInfo = FrameInfo(refcount: nat, used: bool, dirty: bool, kernel: bool)

  /** `cur` is PML4_Physical and `kpages` the kernel task's PageCount.  `role` is an auxiliary
      record of what each frame is for: operations update it and never branch on it. */
  datatype Sys = Sys(mem: Mem, info: seq<FrameInfo>, role: seq<Role>, cur: nat, kpages: nat)

  /** Physical addresses up to 2^47 pass the kernel's IsCanonical test. */
  const CANONICAL_FRAMES: nat := 0x8_0000_0000

  // ---------------------------------------------------------------------------------
  // Operations
  // ---------------------------------------------------------------------------------

  predicate IsFree(i: FrameInfo) {
    !i.used && !i.dirty && !i.kernel
  }

  function InfoAt(info: seq<FrameInfo>, f: nat): FrameInfo {
    if f < |info| then info[f] else FrameInfo(0, false, true, false)
  }

  function SetInfo(info: seq<FrameInfo>, f: nat, i: FrameInfo): seq<FrameInfo> {
    if f < |info| then info[f := i] else info
  }

  function SetRole(role: seq<Role>, f: nat, r: Role): seq<Role> {
    if f < |role| then role[f := r] else role
  }

  function RoleOf(role: seq<Role>, f: nat): Role {
    if f < |role| then role[f] else Plain
  }

  /** First fit from frame k upwards; 0 when memory is exhausted. */
  function FindFreeFrom(info: seq<FrameInfo>, k: nat): nat
    decreases |info| - k
  {
    if k >= |info| then 0
    else if IsFree(info[k]) then k
    else FindFreeFrom(info, k + 1)
  }

  function FindFree(info: seq<FrameInfo>): nat {
    FindFreeFrom(info, 0)
  }

  /** In use and the kernel's. */
  function KernelOwned(i: FrameInfo): FrameInfo {
    i.(used := true, dirty := false, kernel := true)
  }

  /** EnsureEntry: slot i of table t gets a cleared table unless it already has one. */
  function Ensure(s: Sys, t: nat, i: nat, flags: Word): Sys {
    var w := Peek(s.mem, t, i);
    if w.p && w.frame < CANONICAL_FRAMES then s
    else
      var f := FindFree(s.info);
      s.(mem := Poke(Fill(s.mem, f, Zeros()), t, i, flags.(frame := f, p := true)),
         info := SetInfo(s.info, f, KernelOwned(InfoAt(s.info, f))),
         role := SetRole(s.role, f, ChildRole(RoleOf(s.role, t), i)))
  }

  function WalkFlags(n: nat): Word {
    if n < USER_PAGES then USER_FLAGS else KERNEL_FLAGS
  }

  /** CalculatePagePhysicalEntryAddress, stopped at the table of the given level. */
  function EnsureTo(s: Sys, n: nat, level: nat): Sys
    requires 1 <= level <= 4
    decreases 4 - level
  {
    if level == 4 then s
    else
      var s1 := EnsureTo(s, n, level + 1);
      match Table(s1.mem, s1.cur, n, level + 1)
      case None => s1
      case Some(t) => Ensure(s1, t, Index(n, level + 1), WalkFlags(n))
  }

  /** Writes the PTE of page n in the current address space, whose tables exist. */
  function SetLeaf(s: Sys, n: nat, e: Word): Sys {
    match Table(s.mem, s.cur, n, 1)
    case None => s
    case Some(t) => s.(mem := Poke(s.mem, t, Index(n, 1), e))
  }

  /** The walk for page n and the write of its entry: the mapping half of alloc_page. */
  function MapPage(s: Sys, n: nat, e: Word): Sys {
    SetLeaf(EnsureTo(s, n, 1), n, e)
  }

  datatype Outcome = Mapped | RefusedDirty | RefusedAccess | Halted

  /** The accounting alloc_page does for a user mapping. */
  function Claim(i: FrameInfo): FrameInfo {
    var j := if i.refcount == 0 then i.(used := true, dirty := false, kernel := false) else i;
    j.(refcount := j.refcount + 1)
  }

  function NewEntry(frame: nat, flags: Word, xd: bool): Word {
    flags.(frame := frame, xd := xd, high := 0)
  }

  function AllocOutcome(s: Sys, n: nat, frame: nat): Outcome {
    if frame >= |s.info| then Halted
    else if s.info[frame].dirty then RefusedDirty
    else if s.info[frame].kernel && n < USER_PAGES then RefusedAccess
    else Mapped
  }

  /** alloc_page */
  function Alloc(s: Sys, n: nat, frame: nat, flags: Word, xd: bool): Sys {
    if AllocOutcome(s, n, frame) != Mapped then s
    else
      var s1 := if n < USER_PAGES then s.(info := SetInfo(s.info, frame, Claim(InfoAt(s.info, frame)))) else s;
      MapPage(s1, n, NewEntry(frame, flags, xd))
  }

  /** Where malloc(KernelTask) puts its next page. */
  function HeapPage(s: Sys): nat {
    USER_PAGES + s.kpages + 1
  }

  /** The first free frame becomes the kernel's and the kernel heap one page longer. */
  function Reserve(s: Sys): Sys {
    var f := FindFree(s.info);
    s.(info := SetInfo(s.info, f, KernelOwned(InfoAt(s.info, f))), kpages := s.kpages + 1)
  }

  /** malloc(KernelTask) */
  function Malloc(s: Sys): Sys {
    Alloc(Reserve(s), HeapPage(s), FindFree(s.info), KERNEL_FLAGS, true)
  }

  /** A copy of the current root with its user half cleared. */
  function RootImage(root: seq<Word>): (r: seq<Word>)
    ensures |r| == ENTRIES
  {
    seq(ENTRIES, i => if 0 <= i < |root| && i >= KERNEL_SLOT then root[i] else ZERO)
  }

  /** Create_User_Memory: the new state and the new root. */
  function CreateUserMemory(s: Sys): (Sys, nat) {
    var s1 := Malloc(s);
    var f := Leaf(s1.mem, s1.cur, HeapPage(s)).frame;
    (s1.(mem := Fill(s1.mem, f, RootImage(Content(s1.mem, s1.cur))), role := SetRole(s1.role, f, RootRole(f))), f)
  }

  // ---------------------------------------------------------------------------------
  // Invariant
  // ---------------------------------------------------------------------------------

  /** A frame a user may have mapped: in use, and neither a table nor the kernel's. */
  ghost predicate UserFrame(s: Sys, f: nat) {
    f < |s.info| == |s.role| && s.role[f] == Plain && s.info[f].used && !s.info[f].kernel && !s.info[f].dirty
  }

  predicate IsUserPT(role: Role) {
    role.Tab? && role.level == 1 && role.owner.Space?
  }

  /** Every present entry of a user page table names a user frame. */
  ghost predicate LeavesOwned(s: Sys)
    requires Shaped(s.mem, s.role)
  {
    forall f, i :: 0 <= f < |s.mem| && 0 <= i < ENTRIES && IsUserPT(s.role[f]) && s.mem[f][i].p ==>
      UserFrame(s, s.mem[f][i].frame)
  }

  /** All roots hold the same, present, entry for the kernel's slot. */
  ghost predicate KernelHalfShared(s: Sys)
    requires Shaped(s.mem, s.role)
  {
    && (forall r: nat :: IsRoot(s.role, r) ==> s.mem[r][KERNEL_SLOT].p)
    && (forall r: nat, r': nat :: IsRoot(s.role, r) && IsRoot(s.role, r') ==> s.mem[r][KERNEL_SLOT] == s.mem[r'][KERNEL_SLOT])
  }

  ghost predicate FramesTyped(s: Sys) {
    && |s.info| == |s.role|
    && (forall f :: 0 <= f < |s.role| && s.role[f].Tab? ==> s.info[f].used && s.info[f].kernel)
    && (forall f :: 0 <= f < |s.info| && IsFree(s.info[f]) ==> s.info[f].refcount == 0)
  }

  ghost predicate Inv(s: Sys) {
    && 0 < |s.mem| <= CANONICAL_FRAMES
    && Tree(s.mem, s.role)
    && FramesTyped(s)
    && s.info[0].kernel && s.role[0] == Plain
    && IsRoot(s.role, s.cur)
    && LeavesOwned(s)
    && KernelHalfShared(s)
  }

  ghost function Free(info: seq<FrameInfo>): set<nat> {
    set f | 0 <= f < |info| && IsFree(info[f])
  }

  /** How many tables of the walk for page n are missing at `level` and above. */
  ghost function Missing(m: Mem, root: nat, n: nat, level: nat): nat
    requires 1 <= level <= 4
    decreases 4 - level
  {
    if level == 4 then 0
    else Missing(m, root, n, level + 1) + if Table(m, root, n, level).None? then 1 else 0
  }

  // ---------------------------------------------------------------------------------
  // Allocator
  // ---------------------------------------------------------------------------------

  lemma {:induction false} FindFreeFromSpec(info: seq<FrameInfo>, k: nat)
    ensures var f := FindFreeFrom(info, k);
            || (k <= f < |info| && IsFree(info[f]) && forall g :: k <= g < f ==> !IsFree(info[g]))
            || (f == 0 && forall g :: k <= g < |info| ==> !IsFree(info[g]))
    decreases |info| - k
  {
    if k < |info| && !IsFree(info[k]) {
      FindFreeFromSpec(info, k + 1);
    }
  }

  /** The allocator hands out the lowest free frame exactly when there is one, and 0 otherwise. */
  lemma FindFreeSpec(info: seq<FrameInfo>)
    ensures Free(info) != {} ==> FindFree(info) in Free(info) && forall g :: g in Free(info) ==> FindFree(info) <= g
    ensures Free(info) == {} ==> FindFree(info) == 0
  {
    FindFreeFromSpec(info, 0);
    if Free(info) != {} {
      var g :| g in Free(info);
      assert IsFree(info[g]);
    } else {
      forall g | 0 <= g < |info| ensures !IsFree(info[g]) {
        assert g !in Free(info);
      }
    }
  }

  // ---------------------------------------------------------------------------------
  // Table creation
  // ---------------------------------------------------------------------------------

  /** What table creation may do to one frame: turn a free frame into a table, nothing else. */
  ghost predicate Kept(s: Sys, s': Sys, f: nat)
    requires f < |s.mem| == |s.info| == |s.role|
    requires f < |s'.mem| == |s'.info| == |s'.role|
  {
    if s'.info[f] == s.info[f] then
      s'.role[f] == s.role[f] && (s.role[f] == Plain ==> s'.mem[f] == s.mem[f])
    else
      IsFree(s.info[f]) && s'.info[f] == KernelOwned(s.info[f]) && s'.role[f].Tab? && s'.role[f].level < 4
  }

  /** s' is s with some free frames turned into empty tables: every translation is the same. */
  ghost predicate Extends(s: Sys, s': Sys) {
    && |s.mem| == |s.info| == |s.role| == |s'.mem| == |s'.info| == |s'.role|
    && s'.cur == s.cur && s'.kpages == s.kpages
    && (forall f :: 0 <= f < |s.mem| ==> Kept(s, s', f))
    && (forall r: nat, n :: IsRoot(s.role, r) && 0 <= n < ALL_PAGES ==> Leaf(s'.mem, r, n) == Leaf(s.mem, r, n))
  }

  lemma SameRoots(s: Sys, s': Sys)
    requires Inv(s) && Extends(s, s')
    ensures forall r: nat :: IsRoot(s'.role, r) <==> IsRoot(s.role, r)
  {
    forall r: nat | r < |s.role| ensures IsRoot(s'.role, r) <==> IsRoot(s.role, r) {
      assert Kept(s, s', r);
    }
  }

  lemma ExtendsTransitive(s: Sys, s1: Sys, s2: Sys)
    requires Inv(s) && Extends(s, s1) && Extends(s1, s2)
    ensures Extends(s, s2)
  {
    SameRoots(s, s1);
    forall f | 0 <= f < |s.mem| ensures Kept(s, s2, f) {
      assert Kept(s, s1, f) && Kept(s1, s2, f);
    }
  }

  // Hooking a cleared frame f into the empty slot i of table t: the memory half of EnsureEntry.

  ghost predicate Hookable(m: Mem, role: seq<Role>, t: nat, i: nat, f: nat, e: Word) {
    && Tree(m, role) && t < |m| && f < |m| && i < ENTRIES
    && role[t].Tab? && role[t].level > 1 && role[f] == Plain
    && !m[t][i].p && e.p && e.frame == f
  }

  function Hook(m: Mem, t: nat, i: nat, f: nat, e: Word): Mem {
    Poke(Fill(m, f, Zeros()), t, i, e)
  }

  lemma HookTree(m: Mem, role: seq<Role>, t: nat, i: nat, f: nat, e: Word)
    requires Hookable(m, role, t, i, f, e)
    ensures Tree(Hook(m, t, i, f, e), role[f := ChildRole(role[t], i)])
  {
    var m': Mem := Hook(m, t, i, f, e);
    var role' := role[f := ChildRole(role[t], i)];
    forall g, j | 0 <= g < |m| && 0 <= j < ENTRIES && role'[g].Tab? && role'[g].level > 1 && m'[g][j].p
      ensures m'[g][j].frame < |m| && role'[m'[g][j].frame] == ChildRole(role'[g], j)
    {
      if g != f && !(g == t && j == i) {
        assert m'[g][j] == m[g][j];
      }
    }
  }

  lemma HookWalk(m: Mem, role: seq<Role>, t: nat, i: nat, f: nat, e: Word, r: nat, n: nat, l: nat)
    requires Hookable(m, role, t, i, f, e) && IsRoot(role, r) && n < ALL_PAGES && role[t].level <= l <= 4
    ensures Table(Hook(m, t, i, f, e), r, n, l) == Table(m, r, n, l)
  {
    FillTable(m, role, f, Zeros(), r, n, l);
    PokeTable(Fill(m, f, Zeros()), role, t, i, e, r, n, l);
  }

  lemma HookLeaf(m: Mem, role: seq<Role>, t: nat, i: nat, f: nat, e: Word, r: nat, n: nat)
    requires Hookable(m, role, t, i, f, e) && IsRoot(role, r) && n < ALL_PAGES
    ensures Leaf(Hook(m, t, i, f, e), r, n) == Leaf(m, r, n)
  {
    var m1: Mem := Fill(m, f, Zeros());
    var m': Mem := Hook(m, t, i, f, e);
    var L := role[t].level;
    FillLeaf(m, role, f, Zeros(), r, n);
    FillTable(m, role, f, Zeros(), r, n, L);
    if Table(m1, r, n, L) == Some(t) && Index(n, L) == i {
      HookWalk(m, role, t, i, f, e, r, n, L);
      NoneBelow(m, r, n, L - 1);
      assert Table(m', r, n, L - 1) == Some(f);
      if L > 2 {
        NoneBelow(m', r, n, L - 2);
      }
    } else {
      PokeLeaf(m1, role, t, i, e, r, n);
    }
  }

  /** EnsureEntry finds the slot empty and a free frame to fill it with. */
  ghost predicate Creates(s: Sys, t: nat, i: nat) {
    && Inv(s) && t < |s.mem| && i < ENTRIES && s.role[t].Tab? && s.role[t].level > 1
    && !s.mem[t][i].p && Free(s.info) != {}
  }

  lemma EnsureHooks(s: Sys, t: nat, i: nat, flags: Word)
    requires Creates(s, t, i)
    ensures var f := FindFree(s.info); var e := flags.(frame := f, p := true); var s' := Ensure(s, t, i, flags);
            && f in Free(s.info)
            && Hookable(s.mem, s.role, t, i, f, e)
            && s' == s.(mem := Hook(s.mem, t, i, f, e),
                        info := s.info[f := KernelOwned(s.info[f])],
                        role := s.role[f := ChildRole(s.role[t], i)])
            && (forall r: nat :: IsRoot(s'.role, r) <==> IsRoot(s.role, r))
            && Free(s'.info) == Free(s.info) - {f}
  {
    FindFreeSpec(s.info);
  }

  lemma EnsureInv(s: Sys, t: nat, i: nat, flags: Word)
    requires Creates(s, t, i)
    ensures Inv(Ensure(s, t, i, flags))
  {
    EnsureHooks(s, t, i, flags);
    var f := FindFree(s.info);
    var s' := Ensure(s, t, i, flags);
    HookTree(s.mem, s.role, t, i, f, flags.(frame := f, p := true));
    forall g, j | 0 <= g < |s.mem| && 0 <= j < ENTRIES && IsUserPT(s'.role[g]) && s'.mem[g][j].p
      ensures UserFrame(s', s'.mem[g][j].frame)
    {
      assert g != f && g != t;
      assert s'.mem[g][j] == s.mem[g][j];
    }
    forall r: nat | IsRoot(s.role, r) ensures s'.mem[r][KERNEL_SLOT] == s.mem[r][KERNEL_SLOT] {
      assert s.mem[r][KERNEL_SLOT].p;
    }
  }

  lemma EnsureExtends(s: Sys, t: nat, i: nat, flags: Word)
    requires Creates(s, t, i)
    ensures Extends(s, Ensure(s, t, i, flags))
  {
    EnsureHooks(s, t, i, flags);
    var f := FindFree(s.info);
    var s' := Ensure(s, t, i, flags);
    forall r: nat, n | IsRoot(s.role, r) && 0 <= n < ALL_PAGES ensures Leaf(s'.mem, r, n) == Leaf(s.mem, r, n) {
      HookLeaf(s.mem, s.role, t, i, f, flags.(frame := f, p := true), r, n);
    }
    forall g | 0 <= g < |s.mem| ensures Kept(s, s', g) {
    }
  }

  lemma {:induction false} NothingMissing(m: Mem, r: nat, n: nat, level: nat)
    requires 1 <= level <= 4 && Table(m, r, n, level).Some?
    ensures Missing(m, r, n, level) == 0
    decreases 4 - level
  {
    if level < 4 {
      NothingMissing(m, r, n, level + 1);
    }
  }

  /** One step of the walk, from the table at level + 1 to the one at `level`. */
  lemma EnsureStep(s: Sys, n: nat, level: nat)
    requires Inv(s) && n < ALL_PAGES && 1 <= level < 4
    requires Table(s.mem, s.cur, n, level + 1).Some?
    requires Table(s.mem, s.cur, n, level).Some? || Free(s.info) != {}
    ensures var s' := Ensure(s, Table(s.mem, s.cur, n, level + 1).value, Index(n, level + 1), WalkFlags(n));
            && Inv(s') && Extends(s, s')
            && Table(s'.mem, s.cur, n, level).Some?
            && (Table(s.mem, s.cur, n, level).Some? ==> s' == s)
            && (level > 1 ==> Table(s'.mem, s.cur, n, level - 1) == Table(s.mem, s.cur, n, level - 1))
            && Free(s'.info) <= Free(s.info)
            && |Free(s'.info)| == |Free(s.info)| - if Table(s.mem, s.cur, n, level).Some? then 0 else 1
  {
    hide LeavesOwned; hide KernelHalfShared; hide Leaf;
    TableRole(s.mem, s.role, s.cur, n, level + 1);
    var t := Table(s.mem, s.cur, n, level + 1).value;
    var i := Index(n, level + 1);
    if !s.mem[t][i].p {
      EnsureHooks(s, t, i, WalkFlags(n));
      EnsureInv(s, t, i, WalkFlags(n));
      EnsureExtends(s, t, i, WalkFlags(n));
      var f := FindFree(s.info);
      HookWalk(s.mem, s.role, t, i, f, WalkFlags(n).(frame := f, p := true), s.cur, n, level + 1);
    }
  }

  /** The walk builds exactly the missing tables, out of free frames, and changes no translation. */
  lemma {:induction false} EnsureToKeeps(s: Sys, n: nat, level: nat)
    requires Inv(s) && n < ALL_PAGES && 1 <= level <= 4
    requires |Free(s.info)| >= Missing(s.mem, s.cur, n, level)
    ensures var s' := EnsureTo(s, n, level);
            && Inv(s') && Extends(s, s')
            && Table(s'.mem, s.cur, n, level).Some?
            && (Table(s.mem, s.cur, n, level).Some? ==> s' == s)
            && (level > 1 ==> Table(s'.mem, s.cur, n, level - 1) == Table(s.mem, s.cur, n, level - 1))
            && Free(s'.info) <= Free(s.info)
            && |Free(s'.info)| == |Free(s.info)| - Missing(s.mem, s.cur, n, level)
    decreases 4 - level
  {
    if level < 4 {
      EnsureToKeeps(s, n, level + 1);
      var s1 := EnsureTo(s, n, level + 1);
      EnsureStep(s1, n, level);
      ExtendsTransitive(s, s1, EnsureTo(s, n, level));
      if Table(s.mem, s.cur, n, level).Some? {
        NothingMissing(s.mem, s.cur, n, level);
      }
    }
  }

  // ---------------------------------------------------------------------------------
  // Mapping
  // ---------------------------------------------------------------------------------

  /** From s to s' the translation of exactly one page changed, to the entry e. */
  ghost predicate Retargets(s: Sys, s': Sys, r: nat, n: nat, e: Word) {
    && Leaf(s'.mem, r, n) == e
    && forall r': nat, n' :: IsRoot(s.role, r') && 0 <= n' < ALL_PAGES && !(r' == r && n' == n) ==>
         Leaf(s'.mem, r', n') == Leaf(s.mem, r', n')
  }

  /** No user page of any address space changed its translation. */
  ghost predicate UserLeavesKept(s: Sys, s': Sys) {
    forall r: nat, n :: IsRoot(s.role, r) && 0 <= n < USER_PAGES ==> Leaf(s'.mem, r, n) == Leaf(s.mem, r, n)
  }

  /** Frames other than f are untouched, except that free ones may have become tables. */
  ghost predicate OthersKept(s: Sys, s': Sys, f: nat) {
    && |s.mem| == |s.info| == |s.role| == |s'.mem| == |s'.info| == |s'.role|
    && forall g :: 0 <= g < |s.mem| && g != f ==> Kept(s, s', g)
  }

  /** Writing the PTE at slot Index(n, 1) of the page table found by the walk. */
  lemma SetLeafInv(s: Sys, n: nat, e: Word)
    requires Inv(s) && n < ALL_PAGES && Table(s.mem, s.cur, n, 1).Some?
    requires e.p && n < USER_PAGES ==> UserFrame(s, e.frame)
    ensures Inv(SetLeaf(s, n, e))
    ensures forall g :: 0 <= g < |s.mem| && s.role[g] == Plain ==> SetLeaf(s, n, e).mem[g] == s.mem[g]
  {
    TableRole(s.mem, s.role, s.cur, n, 1);
    var t := Table(s.mem, s.cur, n, 1).value;
    var s' := SetLeaf(s, n, e);
    assert forall g :: 0 <= g < |s.mem| && g != t ==> s'.mem[g] == s.mem[g];
    assert Tree(s'.mem, s'.role);
    forall g, j | 0 <= g < |s.mem| && 0 <= j < ENTRIES && IsUserPT(s.role[g]) && s'.mem[g][j].p
      ensures UserFrame(s', s'.mem[g][j].frame)
    {
      if g == t && j == Index(n, 1) {
        assert s'.mem[g][j] == e;
      } else {
        assert s'.mem[g][j] == s.mem[g][j];
      }
    }
    assert KernelHalfShared(s');
  }

  lemma SetLeafElsewhere(s: Sys, n: nat, e: Word, r: nat, k: nat)
    requires Inv(s) && n < ALL_PAGES && Table(s.mem, s.cur, n, 1).Some?
    requires IsRoot(s.role, r) && k < ALL_PAGES && (k != n || (n < USER_PAGES && r != s.cur))
    ensures Leaf(SetLeaf(s, n, e).mem, r, k) == Leaf(s.mem, r, k)
  {
    TableRole(s.mem, s.role, s.cur, n, 1);
    var t := Table(s.mem, s.cur, n, 1).value;
    if Table(s.mem, r, k, 1) == Some(t) && Index(k, 1) == Index(n, 1) {
      TablesDiffer(s.mem, s.role, s.cur, n, r, k);
    }
    PokeLeaf(s.mem, s.role, t, Index(n, 1), e, r, k);
  }

  lemma SetLeafInfo(s: Sys, n: nat, e: Word)
    ensures SetLeaf(s, n, e).info == s.info
  {
  }

  /** Every root whose walk reaches the written page table sees the new entry. */
  lemma SetLeafHere(s: Sys, n: nat, e: Word, r: nat)
    requires Inv(s) && n < ALL_PAGES && Table(s.mem, s.cur, n, 1).Some?
    requires IsRoot(s.role, r) && Table(s.mem, r, n, 1) == Table(s.mem, s.cur, n, 1)
    ensures Leaf(SetLeaf(s, n, e).mem, r, n) == e
    ensures Table(SetLeaf(s, n, e).mem, r, n, 1) == Table(s.mem, r, n, 1)
  {
    TableRole(s.mem, s.role, s.cur, n, 1);
    PokeTable(s.mem, s.role, Table(s.mem, s.cur, n, 1).value, Index(n, 1), e, r, n, 1);
  }

  lemma SetLeafRetargets(s: Sys, n: nat, e: Word)
    requires Inv(s) && n < USER_PAGES && Table(s.mem, s.cur, n, 1).Some?
    ensures Retargets(s, SetLeaf(s, n, e), s.cur, n, e)
  {
    SetLeafHere(s, n, e, s.cur);
    forall r': nat, n' | IsRoot(s.role, r') && 0 <= n' < ALL_PAGES && !(r' == s.cur && n' == n)
      ensures Leaf(SetLeaf(s, n, e).mem, r', n') == Leaf(s.mem, r', n')
    {
      SetLeafElsewhere(s, n, e, r', n');
    }
  }

  /** What alloc_page needs to map `frame` at the user page n: a frame it does not refuse and
      one free frame for every table the walk lacks. */
  ghost predicate CanAlloc(s: Sys, n: nat, frame: nat) {
    && n < USER_PAGES && frame < |s.info| == |s.role| && s.role[frame] == Plain
    && AllocOutcome(s, n, frame) == Mapped
    && |Free(s.info) - {frame}| >= Missing(s.mem, s.cur, n, 1)
  }

  lemma ClaimInv(s: Sys, n: nat, frame: nat)
    requires Inv(s) && CanAlloc(s, n, frame)
    ensures var s1 := s.(info := s.info[frame := Claim(s.info[frame])]);
            Inv(s1) && UserFrame(s1, frame) && Free(s1.info) == Free(s.info) - {frame}
  {
    hide Linked; hide KernelHalfShared; hide LeavesOwned; hide Missing; hide Leaf; hide IsRoot; hide Tree; hide Claim; hide Free;
    var s1 := s.(info := s.info[frame := Claim(s.info[frame])]);
    ClaimedInfo(s.info, frame);
    assert forall f: nat :: UserFrame(s, f) ==> UserFrame(s1, f);
    assert Shaped(s.mem, s.role) by {
      TreeShaped(s.mem, s.role);
    }
    SameOwned(s, s1);
    SameHalf(s, s1);
  }

  lemma TreeShaped(m: Mem, role: seq<Role>)
    requires Tree(m, role)
    ensures Shaped(m, role)
  {
  }

  /** Claiming a frame takes it from the free ones. */
  lemma ClaimedInfo(info: seq<FrameInfo>, frame: nat)
    requires frame < |info| && !info[frame].dirty && !info[frame].kernel && (IsFree(info[frame]) ==> info[frame].refcount == 0)
    ensures var i := Claim(info[frame]);
            && i.used && !i.dirty && !i.kernel && !IsFree(i)
            && Free(info[frame := i]) == Free(info) - {frame}
  {
  }

  lemma SameOwned(s: Sys, s1: Sys)
    requires Shaped(s.mem, s.role) && LeavesOwned(s) && s1.mem == s.mem && s1.role == s.role
    requires forall f: nat :: UserFrame(s, f) ==> UserFrame(s1, f)
    ensures LeavesOwned(s1)
  {
    hide UserFrame;
  }

  lemma SameHalf(s: Sys, s1: Sys)
    requires Shaped(s.mem, s.role) && KernelHalfShared(s) && s1.mem == s.mem && s1.role == s.role
    ensures KernelHalfShared(s1)
  {
  }

  /** Mapping is local: alloc_page at a user page retargets that page of the current address
      space and nothing else, however many tables the walk has to build. */
  lemma AllocIsLocal(s: Sys, n: nat, frame: nat, flags: Word, xd: bool)
    requires Inv(s) && CanAlloc(s, n, frame)
    ensures var s' := Alloc(s, n, frame, flags, xd);
            && Inv(s') && s'.cur == s.cur && s'.kpages == s.kpages
            && Retargets(s, s', s.cur, n, NewEntry(frame, flags, xd))
            && OthersKept(s, s', frame)
            && s'.info[frame] == Claim(s.info[frame]) && UserFrame(s', frame) && s'.mem[frame] == s.mem[frame]
            && Free(s'.info) <= Free(s.info) - {frame}
            && |Free(s'.info)| == |Free(s.info) - {frame}| - Missing(s.mem, s.cur, n, 1)
  {
    hide Leaf; hide Linked; hide LeavesOwned; hide KernelHalfShared; hide EnsureTo;
    ClaimInv(s, n, frame);
    var e := NewEntry(frame, flags, xd);
    var s1 := s.(info := s.info[frame := Claim(s.info[frame])]);
    EnsureToKeeps(s1, n, 1);
    var s2 := EnsureTo(s1, n, 1);
    assert Kept(s1, s2, frame);
    SameRoots(s1, s2);
    SetLeafInv(s2, n, e);
    SetLeafRetargets(s2, n, e);
    var s' := SetLeaf(s2, n, e);
    assert s' == Alloc(s, n, frame, flags, xd);
    forall g | 0 <= g < |s.mem| && g != frame ensures Kept(s, s', g) {
      assert Kept(s1, s2, g);
    }
  }

  /** Protection against bad frames: where memory lasts for the walk, alloc_page maps a plain frame at
      a user page if and only if there is such a frame, and it is neither dirty nor the kernel's.
      Otherwise it says why, in that order, and changes nothing. */
  lemma AllocMapsIff(s: Sys, n: nat, frame: nat, flags: Word, xd: bool)
    requires Inv(s) && n < USER_PAGES && (frame < |s.role| ==> s.role[frame] == Plain)
    requires |Free(s.info) - {frame}| >= Missing(s.mem, s.cur, n, 1)
    ensures var s' := Alloc(s, n, frame, flags, xd); var outcome := AllocOutcome(s, n, frame);
            && (outcome == Halted <==> frame >= |s.mem|)
            && (outcome == RefusedDirty <==> frame < |s.mem| && s.info[frame].dirty)
            && (outcome == RefusedAccess <==> frame < |s.mem| && !s.info[frame].dirty && s.info[frame].kernel)
            && (outcome == Mapped ==> Leaf(s'.mem, s.cur, n) == flags.(frame := frame, xd := xd, high := 0))
            && (outcome != Mapped ==> s' == s)
  {
    if AllocOutcome(s, n, frame) == Mapped {
      hide Leaf; hide Linked; hide LeavesOwned; hide KernelHalfShared; hide Alloc;
      AllocIsLocal(s, n, frame, flags, xd);
    }
  }

  // ---------------------------------------------------------------------------------
  // Kernel heap pages and new address spaces
  // ---------------------------------------------------------------------------------

  ghost predicate CanMalloc(s: Sys) {
    && HeapPage(s) < ALL_PAGES
    && |Free(s.info)| >= 1 + Missing(s.mem, s.cur, HeapPage(s), 1)
  }

  lemma ReserveInv(s: Sys)
    requires Inv(s) && CanMalloc(s)
    ensures var f := FindFree(s.info); var s1 := Reserve(s);
            && f in Free(s.info) && Inv(s1) && Free(s1.info) == Free(s.info) - {f}
            && Malloc(s) == MapPage(s1, HeapPage(s), NewEntry(f, KERNEL_FLAGS, true))
  {
    assert Free(s.info) != {};
    FindFreeSpec(s.info);
  }

  /** A written entry is seen by exactly the roots whose walk ends in the same page table. */
  lemma SetLeafShared(s: Sys, n: nat, e: Word, r: nat)
    requires Inv(s) && n < ALL_PAGES && Table(s.mem, s.cur, n, 1).Some? && IsRoot(s.role, r)
    ensures var s' := SetLeaf(s, n, e);
            && Table(s'.mem, r, n, 1) == Table(s.mem, r, n, 1) && Table(s'.mem, s.cur, n, 1) == Table(s.mem, s.cur, n, 1)
            && Leaf(s'.mem, r, n) == if Table(s.mem, r, n, 1) == Table(s.mem, s.cur, n, 1) then e else Leaf(s.mem, r, n)
  {
    hide Linked; hide LeavesOwned; hide KernelHalfShared;
    TableRole(s.mem, s.role, s.cur, n, 1);
    var t := Table(s.mem, s.cur, n, 1).value;
    PokeTable(s.mem, s.role, t, Index(n, 1), e, r, n, 1);
    PokeTable(s.mem, s.role, t, Index(n, 1), e, s.cur, n, 1);
    if Table(s.mem, r, n, 1) == Some(t) {
      SetLeafHere(s, n, e, r);
    } else {
      PokeLeaf(s.mem, s.role, t, Index(n, 1), e, r, n);
    }
  }

  /** Mapping a kernel page changes the translation of that page only, and in exactly those address
      spaces whose walk for it ends in the current one's page table. */
  lemma MapKernelIsLocal(s: Sys, n: nat, e: Word)
    requires Inv(s) && USER_PAGES <= n < ALL_PAGES && |Free(s.info)| >= Missing(s.mem, s.cur, n, 1)
    ensures var s' := MapPage(s, n, e);
            && Inv(s') && s'.cur == s.cur && s'.kpages == s.kpages
            && OthersKept(s, s', |s.mem|)
            && Leaf(s'.mem, s.cur, n) == e && Table(s'.mem, s.cur, n, 1).Some?
            && (forall r: nat :: IsRoot(s.role, r) ==>
                  Leaf(s'.mem, r, n) == if Table(s'.mem, r, n, 1) == Table(s'.mem, s.cur, n, 1) then e else Leaf(s.mem, r, n))
            && (forall r: nat, k :: IsRoot(s.role, r) && 0 <= k < ALL_PAGES && k != n ==>
                  Leaf(s'.mem, r, k) == Leaf(s.mem, r, k))
            && (forall r: nat :: IsRoot(s'.role, r) <==> IsRoot(s.role, r))
  {
    EnsureToKeeps(s, n, 1);
    var s2 := EnsureTo(s, n, 1);
    SameRoots(s, s2);
    SetLeafInv(s2, n, e);
    SetLeafHere(s2, n, e, s2.cur);
    var s' := MapPage(s, n, e);
    forall r: nat | IsRoot(s.role, r)
      ensures Leaf(s'.mem, r, n) == if Table(s'.mem, r, n, 1) == Table(s'.mem, s.cur, n, 1) then e else Leaf(s.mem, r, n) {
      SetLeafShared(s2, n, e, r);
    }
    forall r: nat, k | IsRoot(s.role, r) && 0 <= k < ALL_PAGES && k != n ensures Leaf(s'.mem, r, k) == Leaf(s.mem, r, k) {
      SetLeafElsewhere(s2, n, e, r, k);
    }
    forall g | 0 <= g < |s.mem| ensures Kept(s, s', g) {
      assert Kept(s, s2, g);
    }
  }

  /** malloc takes the lowest free frame for the kernel, maps it at the next heap page, and
      leaves every user page and every other kernel page of every address space alone. */
  lemma MallocKeeps(s: Sys)
    requires Inv(s) && CanMalloc(s)
    ensures var s' := Malloc(s); var f := FindFree(s.info);
            && f in Free(s.info)
            && Inv(s') && s'.cur == s.cur && s'.kpages == s.kpages + 1
            && OthersKept(s, s', f)
            && s'.info[f] == KernelOwned(s.info[f]) && s'.role[f] == Plain
            && Leaf(s'.mem, s.cur, HeapPage(s)) == NewEntry(f, KERNEL_FLAGS, true)
            && UserLeavesKept(s, s')
            && (forall r: nat, n :: IsRoot(s.role, r) && 0 <= n < ALL_PAGES && n != HeapPage(s) ==>
                  Leaf(s'.mem, r, n) == Leaf(s.mem, r, n))
            && (forall r: nat :: IsRoot(s'.role, r) <==> IsRoot(s.role, r))
  {
    hide Leaf; hide Linked; hide LeavesOwned; hide KernelHalfShared;
    ReserveInv(s);
    var f := FindFree(s.info);
    var s1 := Reserve(s);
    var s' := MapPage(s1, HeapPage(s), NewEntry(f, KERNEL_FLAGS, true));
    MapKernelIsLocal(s1, HeapPage(s), NewEntry(f, KERNEL_FLAGS, true));
    assert Kept(s1, s', f);
    forall g | 0 <= g < |s.mem| && g != f ensures Kept(s, s', g) {
      assert Kept(s1, s', g);
    }
  }

  /** Turning a kernel-owned, unmapped frame into a root. */
  lemma MakeRoot(s: Sys, f: nat)
    requires Inv(s) && 0 < f < |s.mem| && s.role[f] == Plain && s.info[f].kernel && s.info[f].used
    ensures var s' := s.(mem := Fill(s.mem, f, RootImage(Content(s.mem, s.cur))), role := SetRole(s.role, f, RootRole(f)));
            && Inv(s')
            && (forall r: nat :: IsRoot(s'.role, r) <==> IsRoot(s.role, r) || r == f)
            && (forall r: nat, n :: IsRoot(s.role, r) && 0 <= n < ALL_PAGES ==> Leaf(s'.mem, r, n) == Leaf(s.mem, r, n))
  {
    var image := RootImage(Content(s.mem, s.cur));
    var s' := s.(mem := Fill(s.mem, f, image), role := SetRole(s.role, f, RootRole(f)));
    forall r: nat, n | IsRoot(s.role, r) && 0 <= n < ALL_PAGES ensures Leaf(s'.mem, r, n) == Leaf(s.mem, r, n) {
      FillLeaf(s.mem, s.role, f, image, r, n);
    }
    forall g, i | 0 <= g < |s.mem| && 0 <= i < ENTRIES && s'.role[g].Tab? && s'.role[g].level > 1 && s'.mem[g][i].p
      ensures s'.mem[g][i].frame < |s.mem| && s'.role[s'.mem[g][i].frame] == ChildRole(s'.role[g], i)
    {
      if g == f {
        assert s'.mem[f][i] == s.mem[s.cur][i];
      }
    }
    forall r: nat | IsRoot(s'.role, r) ensures s'.mem[r][KERNEL_SLOT] == s.mem[s.cur][KERNEL_SLOT] {
    }
  }

  /** A root image leads nowhere in the user half. */
  lemma EmptyUserHalf(m: Mem, c: nat, n: nat)
    requires c < |m| && |m[c]| == ENTRIES && n < USER_PAGES
    requires forall i :: 0 <= i < KERNEL_SLOT ==> m[c][i] == ZERO
    ensures Leaf(m, c, n) == ZERO
  {
    assert Index(n, 4) < KERNEL_SLOT;
    assert Table(m, c, n, 3).None?;
    NoneBelow(m, c, n, 3);
  }

  /** A new address space has an empty user half; the others are as before. */
  lemma CreateUserMemoryKeeps(s: Sys)
    requires Inv(s) && CanMalloc(s)
    ensures var (s', c) := CreateUserMemory(s);
            && c == FindFree(s.info) && c in Free(s.info)
            && Inv(s') && s'.cur == s.cur && s'.kpages == s.kpages + 1
            && (forall r: nat :: IsRoot(s'.role, r) <==> IsRoot(s.role, r) || r == c)
            && OthersKept(s, s', c)
            && s'.info[c] == KernelOwned(s.info[c])
            && UserLeavesKept(s, s')
            && (forall n :: 0 <= n < USER_PAGES ==> Leaf(s'.mem, c, n) == ZERO)
  {
    hide Linked; hide LeavesOwned; hide KernelHalfShared; hide Malloc; hide FindFree;
    MallocKeeps(s);
    var s1 := Malloc(s);
    var c := FindFree(s.info);
    MakeRoot(s1, c);
    var s' := CreateUserMemory(s).0;
    assert s' == s1.(mem := Fill(s1.mem, c, RootImage(Content(s1.mem, s1.cur))), role := SetRole(s1.role, c, RootRole(c)));
    forall g | 0 <= g < |s.mem| && g != c ensures Kept(s, s', g) {
      assert Kept(s, s1, g);
    }
    forall n | 0 <= n < USER_PAGES ensures Leaf(s'.mem, c, n) == ZERO {
      EmptyUserHalf(s'.mem, c, n);
    }
  }

  // ---------------------------------------------------------------------------------
  // The shared kernel half
  // ---------------------------------------------------------------------------------

  /** A new root starts with all of the kernel half that the current one has, under every slot. */
  lemma NewRootSeesKernel(s: Sys, n: nat)
    requires Inv(s) && CanMalloc(s) && USER_PAGES <= n < ALL_PAGES
    ensures var (s', c) := CreateUserMemory(s); Leaf(s'.mem, c, n) == Leaf(s'.mem, s.cur, n)
  {
    hide Linked; hide LeavesOwned; hide KernelHalfShared; hide Malloc; hide FindFree;
    MallocKeeps(s);
    var s1 := Malloc(s);
    var (s', c) := CreateUserMemory(s);
    assert s'.mem[c] == RootImage(s1.mem[s1.cur]) && s'.mem[s.cur] == s1.mem[s.cur];
    assert Index(n, 4) >= KERNEL_SLOT;
    SharedSlot(s'.mem, c, s.cur, n, 1);
  }

  /** Kernel-half agreement: all roots translate every page under the kernel's slot alike. */
  lemma KernelHalfAgrees(s: Sys, r: nat, r': nat, n: nat)
    requires Inv(s) && IsRoot(s.role, r) && IsRoot(s.role, r')
    requires USER_PAGES <= n < ALL_PAGES && Index(n, 4) == KERNEL_SLOT
    ensures Leaf(s.mem, r, n) == Leaf(s.mem, r', n)
  {
    SharedSlot(s.mem, r, r', n, 1);
  }

  /** A heap page mapped while one root is active appears in all of them, as long as it lies
      under the kernel's slot. */
  lemma MallocSeenByAll(s: Sys, r: nat)
    requires Inv(s) && CanMalloc(s) && IsRoot(s.role, r) && Index(HeapPage(s), 4) == KERNEL_SLOT
    ensures Leaf(Malloc(s).mem, r, HeapPage(s)) == NewEntry(FindFree(s.info), KERNEL_FLAGS, true)
  {
    MallocKeeps(s);
    KernelHalfAgrees(Malloc(s), r, s.cur, HeapPage(s));
  }
}
