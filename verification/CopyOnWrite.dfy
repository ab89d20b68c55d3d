/**
  Sharing of frames between address spaces: who maps a frame, what each address space
  contains, and the two operations that share and unshare pages, fork and the
  copy-on-write fault.
 */
module CopyOnWrite {
  import opened Wrappers
  import opened Words
  import opened PageTables
  import opened AddressSpace

  // ---------------------------------------------------------------------------------
  // Operations
  // ---------------------------------------------------------------------------------

  /** The entry a resolved copy-on-write page gets: present, writable, CoW cleared. */
  function Unshared(w: Word, frame: nat): Word {
    w.(frame := frame, p := true, w := true, cow := false, high := 0)
  }

  function DropReference(i: FrameInfo): FrameInfo {
    i.(refcount := if i.refcount == 0 then 0 else i.refcount - 1)
  }

  /** HandlePageFault on a page of the current address space whose CoW bit is set. */
  function CowFault(s0: Sys, n: nat): Sys {
    var s := EnsureTo(s0, n, 1);
    var w := Leaf(s.mem, s.cur, n);
    if InfoAt(s.info, w.frame).refcount <= 1 then
      SetLeaf(s, n, Unshared(w, w.frame))
    else
      var s1 := s.(info := SetInfo(s.info, w.frame, DropReference(InfoAt(s.info, w.frame))));
      var f := FindFree(s1.info);
      var s2 := SetLeaf(s1, n, Unshared(w, f));
      s2.(mem := Fill(s2.mem, f, Content(s.mem, w.frame)), info := SetInfo(s2.info, f, InfoAt(s2.info, f).(used := true)))
  }

  /** The parent's entry after fork. */
  function Shared(w: Word): Word {
    w.(cow := true, w := false)
  }

  /** One iteration of fork's loops: page n of address space r is shared with c. */
  function ForkPage(s: Sys, r: nat, c: nat, n: nat): Sys {
    var s1 := EnsureTo(s.(cur := r), n, 1);
    var w := Shared(Leaf(s1.mem, r, n));
    var s2 := SetLeaf(s1, n, w);
    Alloc(s2.(cur := c), n, w.frame, w, false)
  }

  function ForkPages(s: Sys, r: nat, c: nat, pages: seq<nat>): Sys
    decreases |pages|
  {
    if pages == [] then s else ForkPages(ForkPage(s, r, c, pages[0]), r, c, pages[1..])
  }

  // ---------------------------------------------------------------------------------
  // Mappings and contents
  // ---------------------------------------------------------------------------------

  ghost predicate Maps(s: Sys, r: nat, n: nat, f: nat) {
    IsRoot(s.role, r) && n < USER_PAGES && Leaf(s.mem, r, n).p && Leaf(s.mem, r, n).frame == f
  }

  /** All user mappings of a frame, over all address spaces. */
  ghost function Mappers(s: Sys, f: nat): set<(nat, nat)> {
    set r: nat, n: nat | r < |s.role| && n < USER_PAGES && Maps(s, r, n, f) :: (r, n)
  }

  /** What an address space contains: its mapped user pages and their words. */
  ghost function View(s: Sys, r: nat): map<nat, seq<Word>> {
    map n: nat | n < USER_PAGES && Leaf(s.mem, r, n).p :: Content(s.mem, Leaf(s.mem, r, n).frame)
  }

  ghost function Views(s: Sys): map<nat, map<nat, seq<Word>>> {
    map r: nat | r < |s.role| && IsRoot(s.role, r) :: View(s, r)
  }

  /** A frame has no more mappings than it has references, or a single one. */
  ghost predicate Counted(s: Sys) {
    forall f :: 0 <= f < |s.info| ==> |Mappers(s, f)| <= 1 || |Mappers(s, f)| <= s.info[f].refcount
  }

  /** A page that can be written without a fault is the only mapping of its frame. */
  ghost predicate Exclusive(s: Sys) {
    forall r: nat, n: nat :: IsRoot(s.role, r) && n < USER_PAGES && Leaf(s.mem, r, n).p && Leaf(s.mem, r, n).w ==>
      Mappers(s, Leaf(s.mem, r, n).frame) == {(r, n)}
  }

  ghost predicate Safe(s: Sys) {
    Inv(s) && Counted(s) && Exclusive(s)
  }

  /** The intended accounting: a frame's reference count is its number of user mappings. */
  ghost predicate Exact(s: Sys) {
    forall f :: 0 <= f < |s.info| ==> s.info[f].refcount == |Mappers(s, f)|
  }

  ghost predicate SameRootSet(s: Sys, s': Sys) {
    |s'.role| == |s.role| && forall r: nat :: IsRoot(s'.role, r) <==> IsRoot(s.role, r)
  }

  /** The content of every frame a user may have mapped is as before. */
  ghost predicate DataKept(s: Sys, s': Sys) {
    |s'.mem| == |s.mem| && forall f: nat :: UserFrame(s, f) && f < |s.mem| ==> s'.mem[f] == s.mem[f]
  }

  lemma MappedFrame(s: Sys, r: nat, n: nat)
    requires Inv(s) && IsRoot(s.role, r) && n < USER_PAGES && Leaf(s.mem, r, n).p
    ensures UserFrame(s, Leaf(s.mem, r, n).frame)
    ensures Table(s.mem, r, n, 1).Some?
    ensures (r, n) in Mappers(s, Leaf(s.mem, r, n).frame)
  {
    TableRole(s.mem, s.role, r, n, 1);
  }

  /** A frame that is free, a table or the kernel's is mapped by nobody. */
  lemma Unmapped(s: Sys, f: nat)
    requires Inv(s) && !UserFrame(s, f)
    ensures Mappers(s, f) == {}
  {
    forall x | x in Mappers(s, f) ensures false {
      MappedFrame(s, x.0, x.1);
    }
  }

  /** Frame ownership: what the allocator returns is no table and is mapped nowhere. */
  lemma FreshFrameUnreachable(s: Sys)
    requires Inv(s) && Free(s.info) != {}
    ensures var f := FindFree(s.info);
            && f < |s.mem| && s.role[f] == Plain && Mappers(s, f) == {}
            && forall r: nat, n: nat, l :: IsRoot(s.role, r) && n < ALL_PAGES && 1 <= l <= 4 ==> Table(s.mem, r, n, l) != Some(f)
  {
    FindFreeSpec(s.info);
    var f := FindFree(s.info);
    Unmapped(s, f);
    forall r: nat, n: nat, l | IsRoot(s.role, r) && n < ALL_PAGES && 1 <= l <= 4 ensures Table(s.mem, r, n, l) != Some(f) {
      TableRole(s.mem, s.role, r, n, l);
    }
  }

  lemma Singleton<T>(S: set<T>, x: T)
    requires x in S && |S| <= 1
    ensures S == {x}
  {
    assert |S - {x}| == |S| - 1;
  }

  lemma {:induction false} SubsetSize<T>(A: set<T>, B: set<T>)
    requires A <= B
    ensures |A| <= |B|
  {
    if A != {} {
      var x :| x in A;
      SubsetSize(A - {x}, B - {x});
    }
  }

  /** In s' page n of the address space r has the present entry e; no other page changed. */
  ghost predicate Switched(s: Sys, s': Sys, r: nat, n: nat, e: Word) {
    SameRootSet(s, s') && IsRoot(s.role, r) && n < USER_PAGES && Retargets(s, s', r, n, e) && e.p
  }

  lemma ViewOf(s: Sys, r: nat)
    requires IsRoot(s.role, r)
    ensures r in Views(s) && Views(s)[r] == View(s, r)
  {
  }

  /** How one changed translation changes the mappings of a frame. */
  lemma RetargetMappers(s: Sys, s': Sys, r: nat, n: nat, e: Word, f: nat)
    requires Switched(s, s', r, n, e)
    ensures Mappers(s', f) == Mappers(s, f) - {(r, n)} + if e.frame == f then {(r, n)} else {}
  {
    forall r': nat, n': nat | n' < USER_PAGES && !(r' == r && n' == n) ensures Maps(s', r', n', f) <==> Maps(s, r', n', f) {
      if IsRoot(s.role, r') {
        assert Leaf(s'.mem, r', n') == Leaf(s.mem, r', n');
      }
    }
  }

  /** An address space whose translations and frames are as before contains what it did. */
  lemma SameView(s: Sys, s': Sys, r: nat)
    requires Inv(s) && IsRoot(s.role, r) && DataKept(s, s')
    requires forall n :: 0 <= n < USER_PAGES ==> Leaf(s'.mem, r, n) == Leaf(s.mem, r, n)
    ensures View(s', r) == View(s, r)
  {
    hide Leaf; hide Linked; hide LeavesOwned; hide KernelHalfShared;
    forall n: nat | n < USER_PAGES && Leaf(s.mem, r, n).p
      ensures Content(s'.mem, Leaf(s.mem, r, n).frame) == Content(s.mem, Leaf(s.mem, r, n).frame)
    {
      MappedFrame(s, r, n);
    }
  }

  lemma RetargetView(s: Sys, s': Sys, r: nat, n: nat, e: Word)
    requires Inv(s) && Switched(s, s', r, n, e) && DataKept(s, s')
    ensures View(s', r) == View(s, r)[n := Content(s'.mem, e.frame)]
  {
    hide Leaf; hide Linked; hide LeavesOwned; hide KernelHalfShared;
    forall k: nat | k < USER_PAGES && k != n && Leaf(s.mem, r, k).p
      ensures Content(s'.mem, Leaf(s.mem, r, k).frame) == Content(s.mem, Leaf(s.mem, r, k).frame)
    {
      MappedFrame(s, r, k);
    }
    assert forall k: nat :: k < USER_PAGES && k != n ==> Leaf(s'.mem, r, k) == Leaf(s.mem, r, k);
  }

  lemma ViewsExtend(s: Sys, s': Sys, r: nat)
    requires SameRootSet(s, s') && IsRoot(s.role, r)
    requires forall r': nat :: IsRoot(s.role, r') && r' != r ==> View(s', r') == View(s, r')
    ensures Views(s') == Views(s)[r := View(s', r)]
  {
  }

  /** ... and what the address spaces contain. */
  lemma RetargetViews(s: Sys, s': Sys, r: nat, n: nat, e: Word)
    requires Inv(s) && Switched(s, s', r, n, e) && DataKept(s, s')
    ensures Views(s') == Views(s)[r := View(s, r)[n := Content(s'.mem, e.frame)]]
  {
    RetargetView(s, s', r, n, e);
    forall r': nat | IsRoot(s.role, r') && r' != r ensures View(s', r') == View(s, r') {
      SameView(s, s', r');
    }
    ViewsExtend(s, s', r);
  }

  // ---------------------------------------------------------------------------------
  // One changed entry
  // ---------------------------------------------------------------------------------

  /** s' differs from s in one user page: page n of the address space r now has entry e. */
  ghost predicate OnePage(s: Sys, s': Sys, r: nat, n: nat, e: Word) {
    && Inv(s) && Inv(s') && DataKept(s, s') && |s'.info| == |s.info|
    && Switched(s, s', r, n, e)
  }

  /** ... and the frame it names has one more reference, the others as many as before. */
  ghost predicate OneMore(s: Sys, s': Sys, frame: nat) {
    && |s'.info| == |s.info| && frame < |s.info|
    && forall f :: 0 <= f < |s.info| ==> s'.info[f].refcount == s.info[f].refcount + if f == frame then 1 else 0
  }

  /** The frame is mapped by nobody, or it is counted and no mapping of it, old or new, can write it. */
  ghost predicate Shareable(s: Sys, r: nat, n: nat, e: Word) {
    || Mappers(s, e.frame) == {}
    || (&& e.frame < |s.info| && s.info[e.frame].refcount >= 1 && !e.w
        && forall r': nat, k: nat :: Maps(s, r', k, e.frame) ==> !Leaf(s.mem, r', k).w)
  }

  /** Counting one frame's mappings when x is dropped or added. */
  lemma CountStep<T>(M: set<T>, M': set<T>, x: T, hit: bool, refs: nat)
    requires |M| <= 1 || |M| <= refs
    requires M' == M - {x} + if hit then {x} else {}
    requires hit ==> M == {} || refs >= 1
    ensures |M'| <= 1 || |M'| <= refs + if hit then 1 else 0
  {
    assert |M - {x}| <= |M| by {
      assert M - {x} <= M;
    }
    if hit {
      assert M' - {x} == M - {x};
    } else {
      assert M' == M - {x};
    }
  }

  lemma AddedCounted(s: Sys, s': Sys, r: nat, n: nat, e: Word)
    requires Switched(s, s', r, n, e) && Counted(s) && OneMore(s, s', e.frame) && Shareable(s, r, n, e)
    ensures Counted(s')
  {
    forall f: nat | f < |s'.info| ensures |Mappers(s', f)| <= 1 || |Mappers(s', f)| <= s'.info[f].refcount {
      RetargetMappers(s, s', r, n, e, f);
      CountStep(Mappers(s, f), Mappers(s', f), (r, n), f == e.frame, s.info[f].refcount);
    }
  }

  lemma AddedExclusive(s: Sys, s': Sys, r: nat, n: nat, e: Word)
    requires Switched(s, s', r, n, e) && Exclusive(s) && Shareable(s, r, n, e)
    ensures Exclusive(s')
  {
    forall r': nat, k: nat | IsRoot(s'.role, r') && k < USER_PAGES && Leaf(s'.mem, r', k).p && Leaf(s'.mem, r', k).w
      ensures Mappers(s', Leaf(s'.mem, r', k).frame) == {(r', k)}
    {
      var f := Leaf(s'.mem, r', k).frame;
      RetargetMappers(s, s', r, n, e, f);
      if !(r' == r && k == n) {
        assert Leaf(s'.mem, r', k) == Leaf(s.mem, r', k);
        assert Maps(s, r', k, f);
        assert (r', k) in Mappers(s, f);
      }
    }
  }

  // ---------------------------------------------------------------------------------
  // Reference accounting
  // ---------------------------------------------------------------------------------

  /** References to a frame that no user mapping accounts for. */
  ghost function Slack(s: Sys, f: nat): int
    requires f < |s.info|
  {
    s.info[f].refcount - |Mappers(s, f)|
  }

  /** From s to s' no frame's slack shrinks; and none grows exactly when `exact` says so. */
  ghost predicate Accounted(s: Sys, s': Sys, exact: bool) {
    && |s'.info| == |s.info|
    && (forall f :: 0 <= f < |s.info| ==> Slack(s', f) >= Slack(s, f))
    && (exact <==> forall f :: 0 <= f < |s.info| ==> Slack(s', f) == Slack(s, f))
  }

  lemma AccountedJoin(s: Sys, s1: Sys, s2: Sys, x: bool, y: bool)
    requires Accounted(s, s1, x) && Accounted(s1, s2, y)
    ensures Accounted(s, s2, x && y)
  {
    hide Slack;
    if !x {
      var f :| 0 <= f < |s.info| && Slack(s1, f) != Slack(s, f);
      assert Slack(s2, f) >= Slack(s1, f) > Slack(s, f);
    } else if !y {
      var f :| 0 <= f < |s1.info| && Slack(s2, f) != Slack(s1, f);
      assert Slack(s1, f) == Slack(s, f);
    } else {
      forall f | 0 <= f < |s.info| ensures Slack(s2, f) == Slack(s, f) {
        assert Slack(s1, f) == Slack(s, f);
      }
    }
  }

  /** Exact counts stay exact exactly when no slack arises. */
  lemma AccountedExact(s: Sys, s': Sys, exact: bool)
    requires Exact(s) && Accounted(s, s', exact)
    ensures Exact(s') <==> exact
  {
    hide Mappers;
    forall f | 0 <= f < |s.info| ensures Slack(s, f) == 0 {
    }
    if Exact(s') {
      forall f | 0 <= f < |s.info| ensures Slack(s', f) == Slack(s, f) {
      }
    } else {
      var f :| 0 <= f < |s'.info| && s'.info[f].refcount != |Mappers(s', f)|;
      assert Slack(s', f) != Slack(s, f);
    }
  }

  lemma SameAccount(s: Sys, s': Sys)
    requires |s'.info| == |s.info| && forall f :: 0 <= f < |s.info| ==> s'.info[f].refcount == s.info[f].refcount
    requires forall f :: Mappers(s', f) == Mappers(s, f)
    ensures Accounted(s, s', true)
  {
    hide Mappers;
  }

  lemma DropOne<T>(M: set<T>, x: T)
    ensures |M - {x}| == |M| - if x in M then 1 else 0
  {
    if x !in M {
      assert M - {x} == M;
    }
  }

  lemma MoveOne<T>(M: set<T>, M': set<T>, x: T, hit: bool)
    requires M' == M - {x} + if hit then {x} else {}
    ensures |M'| == |M| - (if x in M then 1 else 0) + if hit then 1 else 0
  {
    DropOne(M, x);
    if hit {
      assert |(M - {x}) + {x}| == |M - {x}| + 1;
    } else {
      assert M' == M - {x};
    }
  }

  lemma SlackMoves(s: Sys, s': Sys, r: nat, n: nat, e: Word, f: nat)
    requires Switched(s, s', r, n, e) && OneMore(s, s', e.frame) && f < |s.info|
    ensures Slack(s', f) == Slack(s, f) + if Leaf(s.mem, r, n).p && Leaf(s.mem, r, n).frame == f then 1 else 0
  {
    hide Leaf; hide Retargets;
    assert (r, n) in Mappers(s, f) <==> Maps(s, r, n, f) by {
      InMappers(s, r, n, f);
    }
    RetargetMappers(s, s', r, n, e, f);
    hide Mappers;
    MoveOne(Mappers(s, f), Mappers(s', f), (r, n), f == e.frame);
  }

  lemma InMappers(s: Sys, r: nat, n: nat, f: nat)
    ensures (r, n) in Mappers(s, f) <==> Maps(s, r, n, f)
  {
    hide Leaf;
  }

  /** One more reference for one more mapping leaves no slack; if the page had a mapping before,
      the frame that it named keeps a reference too many. */
  lemma AddedAccount(s: Sys, s': Sys, r: nat, n: nat, e: Word)
    requires Inv(s) && Switched(s, s', r, n, e) && OneMore(s, s', e.frame)
    ensures Accounted(s, s', !Leaf(s.mem, r, n).p)
  {
    hide Leaf; hide Slack; hide Retargets; hide Mappers; hide Tree; hide LeavesOwned; hide KernelHalfShared;
    if Leaf(s.mem, r, n).p {
      MappedFrame(s, r, n);
      SlackMoves(s, s', r, n, e, Leaf(s.mem, r, n).frame);
    }
    forall f: nat | f < |s.info|
      ensures Slack(s', f) == Slack(s, f) + if Leaf(s.mem, r, n).p && Leaf(s.mem, r, n).frame == f then 1 else 0
    {
      SlackMoves(s, s', r, n, e, f);
    }
  }

  /** Entries that name the same frame leave all mappings as they were. */
  lemma SameFrameMappers(s: Sys, s': Sys, r: nat, n: nat, e: Word)
    requires OnePage(s, s', r, n, e)
    requires Leaf(s.mem, r, n).p && Leaf(s.mem, r, n).frame == e.frame
    ensures forall f :: Mappers(s', f) == Mappers(s, f)
  {
    forall f ensures Mappers(s', f) == Mappers(s, f) {
      RetargetMappers(s, s', r, n, e, f);
      if f == e.frame {
        MappedFrame(s, r, n);
      } else {
        assert (r, n) !in Mappers(s, f);
      }
    }
  }

  lemma SameFrameViews(s: Sys, s': Sys, r: nat, n: nat, e: Word)
    requires OnePage(s, s', r, n, e)
    requires Leaf(s.mem, r, n).p && Leaf(s.mem, r, n).frame == e.frame
    ensures Views(s') == Views(s)
  {
    RetargetViews(s, s', r, n, e);
    MappedFrame(s, r, n);
    Rewrite(View(s, r), n, Content(s'.mem, e.frame));
    Rewrite(Views(s), r, View(s, r));
  }

  lemma Rewrite<K, V>(m: map<K, V>, k: K, v: V)
    requires k in m && m[k] == v
    ensures m[k := v] == m
  {
  }

  // ---------------------------------------------------------------------------------
  // One new mapping
  // ---------------------------------------------------------------------------------

  lemma AllocFacts(s: Sys, n: nat, frame: nat, flags: Word, xd: bool)
    requires Inv(s) && CanAlloc(s, n, frame) && flags.p
    ensures var s' := Alloc(s, n, frame, flags, xd);
            && OnePage(s, s', s.cur, n, NewEntry(frame, flags, xd))
            && OneMore(s, s', frame)
            && s'.cur == s.cur && s'.kpages == s.kpages && s'.mem[frame] == s.mem[frame]
            && Free(s'.info) <= Free(s.info) - {frame}
  {
    AllocIsLocal(s, n, frame, flags, xd);
    var s' := Alloc(s, n, frame, flags, xd);
    forall g | 0 <= g < |s.info| && g != frame
      ensures s'.info[g].refcount == s.info[g].refcount
      ensures IsRoot(s'.role, g) <==> IsRoot(s.role, g)
      ensures UserFrame(s, g) ==> s'.mem[g] == s.mem[g]
    {
      assert Kept(s, s', g);
    }
  }

  /** A permitted mapping is safe, and the mapped page contains what the frame holds. */
  lemma AllocSafe(s: Sys, n: nat, frame: nat, flags: Word, xd: bool)
    requires Safe(s) && CanAlloc(s, n, frame) && flags.p && Shareable(s, s.cur, n, NewEntry(frame, flags, xd))
    ensures var s' := Alloc(s, n, frame, flags, xd);
            && Safe(s') && SameRootSet(s, s') && s'.cur == s.cur
            && Views(s') == Views(s)[s.cur := View(s, s.cur)[n := s.mem[frame]]]
  {
    AllocFacts(s, n, frame, flags, xd);
    var e := NewEntry(frame, flags, xd);
    var s' := Alloc(s, n, frame, flags, xd);
    AddedCounted(s, s', s.cur, n, e);
    AddedExclusive(s, s', s.cur, n, e);
    RetargetViews(s, s', s.cur, n, e);
  }

  /** Reference accounting: alloc_page keeps exact counts exact if and only if the page was not
      mapped.  Mapping over a page never gives back the reference to the frame it loses. */
  lemma AllocExactIff(s: Sys, n: nat, frame: nat, flags: Word, xd: bool)
    requires Inv(s) && Exact(s) && CanAlloc(s, n, frame) && flags.p
    ensures Exact(Alloc(s, n, frame, flags, xd)) <==> !Leaf(s.mem, s.cur, n).p
  {
    hide Alloc; hide Exact; hide Leaf; hide Accounted;
    AllocAccount(s, n, frame, flags, xd);
    AccountedExact(s, Alloc(s, n, frame, flags, xd), !Leaf(s.mem, s.cur, n).p);
  }

  lemma AllocAccount(s: Sys, n: nat, frame: nat, flags: Word, xd: bool)
    requires Inv(s) && CanAlloc(s, n, frame) && flags.p
    ensures Accounted(s, Alloc(s, n, frame, flags, xd), !Leaf(s.mem, s.cur, n).p)
  {
    hide Alloc; hide Leaf; hide Accounted; hide CanAlloc; hide DataKept; hide Inv;
    AllocFacts(s, n, frame, flags, xd);
    AddedAccount(s, Alloc(s, n, frame, flags, xd), s.cur, n, NewEntry(frame, flags, xd));
  }

  // ---------------------------------------------------------------------------------
  // Fork, one page
  // ---------------------------------------------------------------------------------

  /** The page is mapped in the parent and the child has memory for the tables it needs. */
  ghost predicate CanShare(s: Sys, r: nat, c: nat, n: nat) {
    && IsRoot(s.role, r) && IsRoot(s.role, c) && r != c && n < USER_PAGES
    && Leaf(s.mem, r, n).p
    && |Free(s.info)| >= Missing(s.mem, c, n, 1)
  }

  /** The state after the parent's entry has been made read-only and CoW. */
  function Downgrade(s: Sys, r: nat, n: nat): Sys {
    SetLeaf(s.(cur := r), n, Shared(Leaf(s.mem, r, n)))
  }

  lemma SameButCur(s: Sys, c: nat)
    requires Inv(s) && IsRoot(s.role, c)
    ensures Inv(s.(cur := c))
    ensures forall f :: Mappers(s.(cur := c), f) == Mappers(s, f)
    ensures Views(s.(cur := c)) == Views(s)
    ensures Safe(s) ==> Safe(s.(cur := c))
    ensures Exact(s) ==> Exact(s.(cur := c))
  {
    forall f ensures Mappers(s.(cur := c), f) == Mappers(s, f) {
      assert forall r: nat, n: nat :: Maps(s.(cur := c), r, n, f) <==> Maps(s, r, n, f);
    }
    forall r: nat ensures View(s.(cur := c), r) == View(s, r) {
    }
  }

  /** The walk to a mapped page builds nothing. */
  lemma WalkIsIdle(s: Sys, n: nat)
    requires Inv(s) && n < USER_PAGES && Leaf(s.mem, s.cur, n).p
    ensures EnsureTo(s, n, 1) == s
    ensures Table(s.mem, s.cur, n, 1).Some?
  {
    MappedFrame(s, s.cur, n);
    NothingMissing(s.mem, s.cur, n, 1);
    EnsureToKeeps(s, n, 1);
  }

  /** Writing page-table entries leaves all tables where they are. */
  lemma SetLeafTables(s: Sys, n: nat, e: Word, c: nat, k: nat, l: nat)
    requires Inv(s) && n < USER_PAGES && IsRoot(s.role, c) && k < ALL_PAGES && 1 <= l <= 4
    ensures Table(SetLeaf(s, n, e).mem, c, k, l) == Table(s.mem, c, k, l)
  {
    hide Linked; hide LeavesOwned; hide KernelHalfShared;
    if Table(s.mem, s.cur, n, 1).Some? {
      TableRole(s.mem, s.role, s.cur, n, 1);
      PokeTable(s.mem, s.role, Table(s.mem, s.cur, n, 1).value, Index(n, 1), e, c, k, l);
    }
  }

  /** Rewriting an entry in place: page n of the root r, whose page table exists, gets e. */
  lemma RewriteFacts(s: Sys, r: nat, n: nat, e: Word)
    requires Inv(s) && IsRoot(s.role, r) && n < USER_PAGES && Leaf(s.mem, r, n).p
    requires e.p && UserFrame(s, e.frame)
    ensures var s1 := SetLeaf(s.(cur := r), n, e);
            && OnePage(s, s1, r, n, e)
            && s1.info == s.info && s1.role == s.role && s1.cur == r && s1.kpages == s.kpages
            && EnsureTo(s.(cur := r), n, 1) == s.(cur := r)
            && forall c: nat, k, l :: IsRoot(s.role, c) && 0 <= k < ALL_PAGES && 1 <= l <= 4 ==>
                 Table(s1.mem, c, k, l) == Table(s.mem, c, k, l)
  {
    hide Linked; hide Leaf; hide LeavesOwned; hide KernelHalfShared; hide EnsureTo; hide Table; hide Mappers; hide Views; hide Counted;
    var s0 := s.(cur := r);
    SameButCur(s, r);
    WalkIsIdle(s0, n);
    SetLeafInv(s0, n, e);
    SetLeafRetargets(s0, n, e);
    forall c: nat, k, l | IsRoot(s.role, c) && 0 <= k < ALL_PAGES && 1 <= l <= 4
      ensures Table(SetLeaf(s0, n, e).mem, c, k, l) == Table(s.mem, c, k, l)
    {
      SetLeafTables(s0, n, e, c, k, l);
    }
  }

  lemma {:induction false} MissingSame(m: Mem, m': Mem, c: nat, n: nat, level: nat)
    requires 1 <= level <= 4
    requires forall l :: level <= l <= 4 ==> Table(m', c, n, l) == Table(m, c, n, l)
    ensures Missing(m', c, n, level) == Missing(m, c, n, level)
    decreases 4 - level
  {
    if level < 4 {
      MissingSame(m, m', c, n, level + 1);
    }
  }

  lemma DowngradeFacts(s: Sys, r: nat, c: nat, n: nat)
    requires Inv(s) && CanShare(s, r, c, n)
    ensures var s1 := Downgrade(s, r, n); var w := Leaf(s.mem, r, n);
            && OnePage(s, s1, r, n, Shared(w))
            && s1.info == s.info && s1.role == s.role && s1.kpages == s.kpages
            && CanAlloc(s1.(cur := c), n, w.frame)
            && ForkPage(s, r, c, n) == Alloc(s1.(cur := c), n, w.frame, Shared(w), false)
  {
    MappedFrame(s, r, n);
    var w := Leaf(s.mem, r, n);
    RewriteFacts(s, r, n, Shared(w));
    MissingSame(s.mem, Downgrade(s, r, n).mem, c, n, 1);
    assert Free(s.info) - {w.frame} == Free(s.info);
  }

  /** Taking a write permission away changes no content and no mapping. */
  lemma ReadOnlySafe(s: Sys, s1: Sys, r: nat, n: nat, e: Word)
    requires Safe(s) && OnePage(s, s1, r, n, e) && s1.info == s.info && !e.w
    requires Leaf(s.mem, r, n).p && Leaf(s.mem, r, n).frame == e.frame
    ensures Safe(s1)
    ensures forall r': nat, k: nat :: Maps(s1, r', k, e.frame) ==> !Leaf(s1.mem, r', k).w
  {
    SameFrameMappers(s, s1, r, n, e);
    MappedFrame(s, r, n);
    forall r': nat, k: nat | IsRoot(s.role, r') && k < USER_PAGES && Leaf(s1.mem, r', k).p && Leaf(s1.mem, r', k).w
      ensures Mappers(s1, Leaf(s1.mem, r', k).frame) == {(r', k)} && Leaf(s1.mem, r', k).frame != e.frame
    {
      assert !(r' == r && k == n);
      assert Leaf(s1.mem, r', k) == Leaf(s.mem, r', k);
      assert (r, n) in Mappers(s, e.frame);
    }
  }

  /** The whole effect of one iteration on translations, frames and counts. */
  lemma ForkPageFacts(s: Sys, r: nat, c: nat, n: nat)
    requires Inv(s) && CanShare(s, r, c, n)
    ensures var s' := ForkPage(s, r, c, n); var w := Leaf(s.mem, r, n);
            && Inv(s') && SameRootSet(s, s') && DataKept(s, s') && s'.kpages == s.kpages && s'.cur == c
            && Leaf(s'.mem, r, n) == Shared(w)
            && Leaf(s'.mem, c, n) == NewEntry(w.frame, Shared(w), false)
            && (forall r': nat, k :: IsRoot(s.role, r') && 0 <= k < ALL_PAGES && !(k == n && (r' == r || r' == c)) ==>
                  Leaf(s'.mem, r', k) == Leaf(s.mem, r', k))
            && OneMore(s, s', w.frame)
  {
    hide Leaf; hide Linked; hide LeavesOwned; hide KernelHalfShared; hide Alloc; hide Free;
    DowngradeFacts(s, r, c, n);
    var s1 := Downgrade(s, r, n).(cur := c);
    var w := Leaf(s.mem, r, n);
    SameButCur(Downgrade(s, r, n), c);
    AllocFacts(s1, n, w.frame, Shared(w), false);
    var s' := Alloc(s1, n, w.frame, Shared(w), false);
    assert forall f: nat :: UserFrame(s, f) ==> UserFrame(s1, f);
    forall r': nat, k | IsRoot(s.role, r') && 0 <= k < ALL_PAGES && !(k == n && (r' == r || r' == c))
      ensures Leaf(s'.mem, r', k) == Leaf(s.mem, r', k)
    {
      assert Leaf(s1.mem, r', k) == Leaf(s.mem, r', k);
    }
  }

  /** Sharing a counted page is safe and gives the child the parent's content of that page. */
  lemma ForkPageSafe(s: Sys, r: nat, c: nat, n: nat)
    requires Safe(s) && CanShare(s, r, c, n)
    requires InfoAt(s.info, Leaf(s.mem, r, n).frame).refcount >= 1
    ensures var s' := ForkPage(s, r, c, n);
            Safe(s') && Views(s') == Views(s)[c := View(s, c)[n := Content(s.mem, Leaf(s.mem, r, n).frame)]]
  {
    DowngradeFacts(s, r, c, n);
    var s0 := Downgrade(s, r, n);
    var s1 := s0.(cur := c);
    var w := Leaf(s.mem, r, n);
    MappedFrame(s, r, n);
    ReadOnlySafe(s, s0, r, n, Shared(w));
    SameFrameViews(s, s0, r, n, Shared(w));
    SameButCur(s0, c);
    assert Shareable(s1, c, n, NewEntry(w.frame, Shared(w), false)) by {
      assert forall r': nat, k: nat :: Maps(s1, r', k, w.frame) ==> Maps(s0, r', k, w.frame);
    }
    AllocSafe(s1, n, w.frame, Shared(w), false);
    assert View(s1, c) == Views(s1)[c] == Views(s)[c] == View(s, c);
  }

  lemma ForkPageAccount(s: Sys, r: nat, c: nat, n: nat)
    requires Inv(s) && CanShare(s, r, c, n)
    ensures Accounted(s, ForkPage(s, r, c, n), !Leaf(s.mem, c, n).p)
  {
    hide Leaf; hide Accounted; hide Alloc; hide CanAlloc; hide DataKept; hide Linked; hide LeavesOwned; hide KernelHalfShared;
    DowngradeFacts(s, r, c, n);
    var s0 := Downgrade(s, r, n);
    var s1 := s0.(cur := c);
    var w := Leaf(s.mem, r, n);
    SameFrameMappers(s, s0, r, n, Shared(w));
    SameButCur(s0, c);
    SameAccount(s, s1);
    assert Leaf(s1.mem, c, n) == Leaf(s.mem, c, n);
    AllocAccount(s1, n, w.frame, Shared(w), false);
    AccountedJoin(s, s1, Alloc(s1, n, w.frame, Shared(w), false), true, !Leaf(s.mem, c, n).p);
  }

  /** Reference accounting: sharing a page keeps exact counts exact if and only if the child does
      not have that page yet. */
  lemma ForkPageExactIff(s: Sys, r: nat, c: nat, n: nat)
    requires Inv(s) && Exact(s) && CanShare(s, r, c, n)
    ensures Exact(ForkPage(s, r, c, n)) <==> !Leaf(s.mem, c, n).p
  {
    hide Leaf; hide Accounted; hide ForkPage; hide Exact;
    ForkPageAccount(s, r, c, n);
    AccountedExact(s, ForkPage(s, r, c, n), !Leaf(s.mem, c, n).p);
  }

  // ---------------------------------------------------------------------------------
  // The copy-on-write fault
  // ---------------------------------------------------------------------------------

  /** A mapped CoW page whose resolution does not find memory exhausted. */
  ghost predicate CanResolve(s: Sys, n: nat) {
    && n < USER_PAGES && Leaf(s.mem, s.cur, n).p && Leaf(s.mem, s.cur, n).cow
    && (InfoAt(s.info, Leaf(s.mem, s.cur, n).frame).refcount <= 1 || Free(s.info) != {})
  }

  /** Making the only mapping of a frame writable. */
  lemma WritableSafe(s: Sys, s': Sys, r: nat, n: nat, e: Word)
    requires Safe(s) && OnePage(s, s', r, n, e) && s'.info == s.info
    requires Leaf(s.mem, r, n).p && Leaf(s.mem, r, n).frame == e.frame
    requires |Mappers(s, e.frame)| <= 1
    ensures Safe(s')
  {
    SameFrameMappers(s, s', r, n, e);
    MappedFrame(s, r, n);
    Singleton(Mappers(s, e.frame), (r, n));
    forall r': nat, k: nat | IsRoot(s.role, r') && k < USER_PAGES && Leaf(s'.mem, r', k).p && Leaf(s'.mem, r', k).w
      ensures Mappers(s', Leaf(s'.mem, r', k).frame) == {(r', k)}
    {
      if !(r' == r && k == n) {
        assert Leaf(s'.mem, r', k) == Leaf(s.mem, r', k);
      }
    }
  }

  /** Resolving a page with at most one reference rewrites its entry and nothing else. */
  lemma CowInPlaceFacts(s: Sys, n: nat)
    requires Inv(s) && CanResolve(s, n)
    requires InfoAt(s.info, Leaf(s.mem, s.cur, n).frame).refcount <= 1
    ensures var w := Leaf(s.mem, s.cur, n); var s' := CowFault(s, n);
            OnePage(s, s', s.cur, n, Unshared(w, w.frame)) && s'.cur == s.cur && s'.info == s.info
  {
    hide Linked; hide LeavesOwned; hide KernelHalfShared; hide Leaf;
    var w := Leaf(s.mem, s.cur, n);
    MappedFrame(s, s.cur, n);
    RewriteFacts(s, s.cur, n, Unshared(w, w.frame));
    assert s.(cur := s.cur) == s;
    assert CowFault(s, n) == SetLeaf(s, n, Unshared(w, w.frame));
  }

  lemma CowInPlace(s: Sys, n: nat)
    requires Safe(s) && CanResolve(s, n)
    requires InfoAt(s.info, Leaf(s.mem, s.cur, n).frame).refcount <= 1
    ensures Safe(CowFault(s, n)) && Views(CowFault(s, n)) == Views(s)
  {
    hide Leaf; hide CowFault;
    var w := Leaf(s.mem, s.cur, n);
    MappedFrame(s, s.cur, n);
    CowInPlaceFacts(s, n);
    WritableSafe(s, CowFault(s, n), s.cur, n, Unshared(w, w.frame));
    SameFrameViews(s, CowFault(s, n), s.cur, n, Unshared(w, w.frame));
  }

  /** The state in which the copy exists but is not mapped yet: one reference fewer to the
      old frame g, and frame f in use with g's content. */
  function Copied(s: Sys, g: nat, f: nat): Sys {
    var info := SetInfo(s.info, g, DropReference(InfoAt(s.info, g)));
    s.(mem := Fill(s.mem, f, Content(s.mem, g)), info := SetInfo(info, f, InfoAt(info, f).(used := true)))
  }

  lemma CopiedFacts(s: Sys, g: nat, f: nat)
    requires Inv(s) && UserFrame(s, g) && s.info[g].refcount >= 2 && f in Free(s.info)
    ensures var s1 := Copied(s, g, f);
            && Inv(s1) && UserFrame(s1, f) && UserFrame(s1, g) && s1.mem[f] == s.mem[g] && SameRootSet(s, s1) && DataKept(s, s1)
            && (forall r: nat, n, l :: IsRoot(s.role, r) && 0 <= n < ALL_PAGES && 1 <= l <= 4 ==>
                  Table(s1.mem, r, n, l) == Table(s.mem, r, n, l))
            && (forall r: nat, n :: IsRoot(s.role, r) && 0 <= n < ALL_PAGES ==> Leaf(s1.mem, r, n) == Leaf(s.mem, r, n))
  {
    hide Leaf;
    var s1 := Copied(s, g, f);
    forall r: nat, n, l | IsRoot(s.role, r) && 0 <= n < ALL_PAGES && 1 <= l <= 4
      ensures Table(s1.mem, r, n, l) == Table(s.mem, r, n, l)
    {
      FillTable(s.mem, s.role, f, Content(s.mem, g), r, n, l);
    }
    forall r: nat, n | IsRoot(s.role, r) && 0 <= n < ALL_PAGES ensures Leaf(s1.mem, r, n) == Leaf(s.mem, r, n) {
      FillLeaf(s.mem, s.role, f, Content(s.mem, g), r, n);
    }
    assert forall h :: 0 <= h < |s.mem| && h != f ==> s1.mem[h] == s.mem[h];
    forall h, i | 0 <= h < |s.mem| && 0 <= i < ENTRIES && IsUserPT(s.role[h]) && s1.mem[h][i].p
      ensures UserFrame(s1, s1.mem[h][i].frame)
    {
      assert s1.mem[h][i] == s.mem[h][i];
    }
    assert KernelHalfShared(s1);
  }

  /** States with the same user translations have the same mappings, and the same contents. */
  lemma SameLeaves(s: Sys, s1: Sys)
    requires Inv(s) && SameRootSet(s, s1) && UserLeavesKept(s, s1)
    ensures forall f :: Mappers(s1, f) == Mappers(s, f)
    ensures DataKept(s, s1) ==> Views(s1) == Views(s)
  {
    forall f ensures Mappers(s1, f) == Mappers(s, f) {
      forall r: nat, n: nat | n < USER_PAGES ensures Maps(s1, r, n, f) <==> Maps(s, r, n, f) {
        if IsRoot(s.role, r) {
          assert Leaf(s1.mem, r, n) == Leaf(s.mem, r, n);
        }
      }
    }
    if DataKept(s, s1) {
      forall r: nat | IsRoot(s.role, r) ensures View(s1, r) == View(s, r) {
        SameView(s, s1, r);
      }
    }
  }

  ghost predicate WillCopy(s: Sys, n: nat) {
    && Inv(s) && CanResolve(s, n)
    && InfoAt(s.info, Leaf(s.mem, s.cur, n).frame).refcount >= 2
  }

  lemma CopyTarget(s: Sys, n: nat)
    requires WillCopy(s, n)
    ensures var w := Leaf(s.mem, s.cur, n);
            && UserFrame(s, w.frame)
            && FindFree(s.info) in Free(s.info)
            && FindFree(SetInfo(s.info, w.frame, DropReference(InfoAt(s.info, w.frame)))) == FindFree(s.info)
  {
    var w := Leaf(s.mem, s.cur, n);
    MappedFrame(s, s.cur, n);
    var info := SetInfo(s.info, w.frame, DropReference(InfoAt(s.info, w.frame)));
    assert Free(info) == Free(s.info);
    FindFreeSpec(info);
    FindFreeSpec(s.info);
  }

  lemma FillPoke(m: Mem, t: nat, i: nat, w: Word, f: nat, content: seq<Word>)
    requires t != f
    ensures Fill(Poke(m, t, i, w), f, content) == Poke(Fill(m, f, content), t, i, w)
  {
  }

  /** The fault handler maps the new frame first and fills it through that mapping; mapping
      a frame that is already filled comes to the same. */
  lemma CowCopyIsRewrite(s: Sys, n: nat)
    requires WillCopy(s, n)
    ensures var w := Leaf(s.mem, s.cur, n); var f := FindFree(s.info);
            CowFault(s, n) == SetLeaf(Copied(s, w.frame, f), n, Unshared(w, f))
  {
    var w := Leaf(s.mem, s.cur, n);
    var f := FindFree(s.info);
    CopyTarget(s, n);
    WalkIsIdle(s, n);
    TableRole(s.mem, s.role, s.cur, n, 1);
    var t := Table(s.mem, s.cur, n, 1).value;
    FillTable(s.mem, s.role, f, Content(s.mem, w.frame), s.cur, n, 1);
    FillPoke(s.mem, t, Index(n, 1), Unshared(w, f), f, Content(s.mem, w.frame));
  }

  /** Mapping the copy in place of the original. */
  lemma CowCopyFacts(s: Sys, n: nat)
    requires WillCopy(s, n)
    ensures var w := Leaf(s.mem, s.cur, n); var f := FindFree(s.info);
            var s1 := Copied(s, w.frame, f); var s' := CowFault(s, n);
            && f in Free(s.info) && UserFrame(s, w.frame)
            && Inv(s1) && SameRootSet(s, s1) && UserLeavesKept(s, s1) && DataKept(s, s1) && Leaf(s1.mem, s.cur, n) == w
            && s'.info == s1.info && s'.cur == s.cur
            && OnePage(s1, s', s.cur, n, Unshared(w, f)) && Content(s'.mem, f) == Content(s.mem, w.frame)
  {
    var w := Leaf(s.mem, s.cur, n);
    var f := FindFree(s.info);
    CopyTarget(s, n);
    CopiedFacts(s, w.frame, f);
    CowCopyIsRewrite(s, n);
    var s1 := Copied(s, w.frame, f);
    RewriteFacts(s1, s.cur, n, Unshared(w, f));
    assert s1.(cur := s.cur) == s1;
  }

  lemma CowCopyCounted(s: Sys, s1: Sys, s': Sys, r: nat, n: nat, g: nat, f: nat, e: Word)
    requires Counted(s) && Switched(s1, s', r, n, e) && e.frame == f && f != g && g < |s.info| == |s1.info| && s'.info == s1.info
    requires forall h :: Mappers(s1, h) == Mappers(s, h)
    requires (r, n) in Mappers(s, g) && Mappers(s, f) == {} && s.info[g].refcount >= 2
    requires forall h :: 0 <= h < |s.info| ==> s1.info[h].refcount == s.info[h].refcount - if h == g then 1 else 0
    ensures Counted(s')
  {
    forall h: nat | h < |s'.info| ensures |Mappers(s', h)| <= 1 || |Mappers(s', h)| <= s'.info[h].refcount {
      RetargetMappers(s1, s', r, n, e, h);
      if h == f {
        assert Mappers(s', h) == {(r, n)};
      } else if h == g {
        assert Mappers(s', h) == Mappers(s, g) - {(r, n)};
      } else {
        CountStep(Mappers(s, h), Mappers(s', h), (r, n), false, s.info[h].refcount);
      }
    }
  }

  lemma CowCopyExclusive(s: Sys, s1: Sys, s': Sys, r: nat, n: nat, g: nat, f: nat, e: Word)
    requires Exclusive(s) && Switched(s1, s', r, n, e) && e.frame == f && f != g
    requires SameRootSet(s, s1) && UserLeavesKept(s, s1)
    requires forall h :: Mappers(s1, h) == Mappers(s, h)
    requires (r, n) in Mappers(s, g) && Mappers(s, f) == {}
    ensures Exclusive(s')
  {
    RetargetMappers(s1, s', r, n, e, f);
    forall r': nat, k: nat | IsRoot(s'.role, r') && k < USER_PAGES && Leaf(s'.mem, r', k).p && Leaf(s'.mem, r', k).w
      ensures Mappers(s', Leaf(s'.mem, r', k).frame) == {(r', k)}
    {
      if !(r' == r && k == n) {
        assert Leaf(s'.mem, r', k) == Leaf(s1.mem, r', k) == Leaf(s.mem, r', k);
        var h := Leaf(s.mem, r', k).frame;
        assert Mappers(s, h) == {(r', k)};
        RetargetMappers(s1, s', r, n, e, h);
      }
    }
  }

  lemma CowCopy(s: Sys, n: nat)
    requires Safe(s) && CanResolve(s, n)
    requires InfoAt(s.info, Leaf(s.mem, s.cur, n).frame).refcount >= 2
    ensures Safe(CowFault(s, n)) && Views(CowFault(s, n)) == Views(s)
  {
    hide CowFault; hide Leaf; hide Linked; hide LeavesOwned; hide KernelHalfShared;
    CowCopyFacts(s, n);
    var w := Leaf(s.mem, s.cur, n);
    var f := FindFree(s.info);
    var s1 := Copied(s, w.frame, f);
    var s' := CowFault(s, n);
    var e := Unshared(w, f);
    SameLeaves(s, s1);
    MappedFrame(s, s.cur, n);
    Unmapped(s, f);
    CowCopyCounted(s, s1, s', s.cur, n, w.frame, f, e);
    CowCopyExclusive(s, s1, s', s.cur, n, w.frame, f, e);
    RetargetViews(s1, s', s.cur, n, e);
    assert View(s1, s.cur) == Views(s1)[s.cur] == View(s, s.cur);
    Rewrite(View(s, s.cur), n, Content(s'.mem, f));
    Rewrite(Views(s), s.cur, View(s, s.cur));
  }

  /** Resolving a CoW page makes it writable and is invisible in every address space. */
  lemma CowFaultSafe(s: Sys, n: nat)
    requires Safe(s) && CanResolve(s, n)
    ensures var s' := CowFault(s, n);
            && Safe(s') && Views(s') == Views(s) && SameRootSet(s, s') && s'.cur == s.cur
            && Leaf(s'.mem, s.cur, n).p && Leaf(s'.mem, s.cur, n).w && !Leaf(s'.mem, s.cur, n).cow
            && Leaf(s'.mem, s.cur, n).u == Leaf(s.mem, s.cur, n).u && Leaf(s'.mem, s.cur, n).xd == Leaf(s.mem, s.cur, n).xd
            && forall r: nat, k: nat :: IsRoot(s.role, r) && k < USER_PAGES && !(r == s.cur && k == n) ==>
                 Leaf(s'.mem, r, k) == Leaf(s.mem, r, k)
  {
    if InfoAt(s.info, Leaf(s.mem, s.cur, n).frame).refcount <= 1 {
      CowInPlace(s, n);
      CowInPlaceFacts(s, n);
    } else {
      CowCopy(s, n);
      CowCopyFacts(s, n);
    }
  }

  /** Reference accounting: resolving a page in place keeps exact counts exact. */
  lemma CowInPlaceExact(s: Sys, n: nat)
    requires Inv(s) && Exact(s) && CanResolve(s, n)
    requires InfoAt(s.info, Leaf(s.mem, s.cur, n).frame).refcount <= 1
    ensures Exact(CowFault(s, n))
  {
    hide Leaf; hide CowFault;
    CowInPlaceFacts(s, n);
    SameFrameMappers(s, CowFault(s, n), s.cur, n, Unshared(Leaf(s.mem, s.cur, n), Leaf(s.mem, s.cur, n).frame));
  }

  /** ... and a copy keeps them exact for every frame but the new one, which is left with
      one mapping and no reference. */
  lemma CowCopyMiscounts(s: Sys, n: nat)
    requires Exact(s) && WillCopy(s, n)
    ensures var s' := CowFault(s, n); var spare := FindFree(s.info);
            && |s'.info| == |s.info| && spare < |s.info|
            && (forall f :: 0 <= f < |s.info| && f != spare ==> s'.info[f].refcount == |Mappers(s', f)|)
            && s'.info[spare].refcount == 0 && |Mappers(s', spare)| == 1
  {
    hide Leaf; hide CowFault; hide Linked; hide LeavesOwned; hide KernelHalfShared; hide Mappers;
    CowCopyFacts(s, n);
    var w := Leaf(s.mem, s.cur, n);
    var spare := FindFree(s.info);
    var s1 := Copied(s, w.frame, spare);
    var s' := CowFault(s, n);
    SameLeaves(s, s1);
    MappedFrame(s, s.cur, n);
    Unmapped(s, spare);
    forall f: nat | f < |s.info|
      ensures f != spare ==> s'.info[f].refcount == |Mappers(s', f)|
      ensures f == spare ==> Mappers(s', f) == {(s.cur, n)}
    {
      RetargetMappers(s1, s', s.cur, n, Unshared(w, spare), f);
      if f != spare && f != w.frame {
        OtherFrame(s, s.cur, n, f);
      }
    }
  }

  /** A page is a mapping of no frame but its own. */
  lemma OtherFrame(s: Sys, r: nat, n: nat, f: nat)
    requires f != Leaf(s.mem, r, n).frame
    ensures Mappers(s, f) - {(r, n)} == Mappers(s, f)
  {
    assert (r, n) !in Mappers(s, f);
  }
}
