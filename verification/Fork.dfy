/**
  The FORK system call's memory work (src/kernel/drivers/Userland/syscall.c) and user
  writes, and when sharing frames is indistinguishable from copying them.
 */
module Fork {
  import opened Words
  import opened PageTables
  import opened AddressSpace
  import opened CopyOnWrite

  type Image = map<nat, seq<Word>>

  // ---------------------------------------------------------------------------------
  // Operations
  // ---------------------------------------------------------------------------------

  /** A process's page ranges, in page numbers: `pages` pages up from base, and
      `stackPages` pages down from stackBase. */
  datatype Region = Region(base: nat, pages: nat, stackBase: nat, stackPages: nat)

  function CodePages(g: Region): (r: seq<nat>)
    ensures |r| == g.pages && forall i :: 0 <= i < g.pages ==> r[i] == g.base + i
  {
    seq(g.pages, i requires 0 <= i => g.base + i)
  }

  function StackPages(g: Region): (r: seq<nat>)
    ensures |r| == g.stackPages
    ensures forall i :: 0 <= i < g.stackPages && i <= g.stackBase ==> r[i] == g.stackBase - i
  {
    seq(g.stackPages, i requires 0 <= i => if i <= g.stackBase then g.stackBase - i else 0)
  }

  function PagesOf(g: Region): seq<nat> {
    CodePages(g) + StackPages(g)
  }

  /** Those are the pages of the two ranges. */
  lemma PagesOfIff(g: Region, n: nat)
    requires g.stackPages <= g.stackBase + 1
    ensures n in PagesOf(g) <==> g.base <= n < g.base + g.pages || g.stackBase - g.stackPages < n <= g.stackBase
  {
    var code, stack := CodePages(g), StackPages(g);
    if g.base <= n < g.base + g.pages {
      assert code[n - g.base] == n;
    }
    if g.stackBase - g.stackPages < n <= g.stackBase {
      assert stack[g.stackBase - n] == n;
    }
  }

  function MallocTimes(s: Sys, k: nat): Sys
    decreases k
  {
    if k == 0 then s else MallocTimes(Malloc(s), k - 1)
  }

  /** Pages of a task's kernel stack. */
  const KERNEL_STACK_PAGES: nat := 5

  /** The new state and the child's root. */
  function Fork(s: Sys, r: nat, g: Region): (Sys, nat) {
    var (s1, c) := CreateUserMemory(s.(cur := r));
    var s2 := ForkPages(s1, r, c, PagesOf(g));
    (MallocTimes(s2.(cur := r), KERNEL_STACK_PAGES), c)
  }

  /** A store by a process to a page it can write. */
  function UserWrite(s: Sys, r: nat, n: nat, i: nat, v: Word): Sys {
    s.(cur := r, mem := Poke(s.mem, Leaf(s.mem, r, n).frame, i, v))
  }

  // ---------------------------------------------------------------------------------
  // What the loops need
  // ---------------------------------------------------------------------------------

  ghost predicate Distinct(pages: seq<nat>) {
    forall i, j :: 0 <= i < j < |pages| ==> pages[i] != pages[j]
  }

  /** Every page is a user page the parent has mapped. */
  ghost predicate AllMapped(s: Sys, r: nat, pages: seq<nat>) {
    forall i :: 0 <= i < |pages| ==> pages[i] < USER_PAGES && Leaf(s.mem, r, pages[i]).p
  }

  /** No iteration finds memory exhausted. */
  ghost predicate Fits(s: Sys, r: nat, c: nat, pages: seq<nat>)
    decreases |pages|
  {
    pages == [] ||
    (|Free(s.info)| >= Missing(s.mem, c, pages[0], 1) && Fits(ForkPage(s, r, c, pages[0]), r, c, pages[1..]))
  }

  ghost predicate MallocFits(s: Sys, k: nat)
    decreases k
  {
    k == 0 || (CanMalloc(s) && MallocFits(Malloc(s), k - 1))
  }

  ghost predicate Forkable(s: Sys, r: nat, c: nat, pages: seq<nat>) {
    IsRoot(s.role, r) && IsRoot(s.role, c) && r != c && Distinct(pages) && AllMapped(s, r, pages) && Fits(s, r, c, pages)
  }

  /** Every page to be shared is counted; this is what a copy-on-write copy fails to be. */
  ghost predicate CountedPages(s: Sys, r: nat, pages: seq<nat>) {
    forall i :: 0 <= i < |pages| ==> InfoAt(s.info, Leaf(s.mem, r, pages[i]).frame).refcount >= 1
  }

  /** How many of the pages name frame f. */
  ghost function Uses(s: Sys, r: nat, pages: seq<nat>, f: nat): nat {
    if pages == [] then 0
    else (if Leaf(s.mem, r, pages[0]).frame == f then 1 else 0) + Uses(s, r, pages[1..], f)
  }

  /** Copying pages one by one. */
  function CopyPages(to: Image, from: Image, pages: seq<nat>): Image
    decreases |pages|
  {
    if pages == [] then to
    else CopyPages(if pages[0] in from then to[pages[0] := from[pages[0]]] else to, from, pages[1..])
  }

  /** Copying into an empty image restricts the source to the copied pages. */
  lemma {:induction false} CopyPagesContent(to: Image, from: Image, pages: seq<nat>, n: nat)
    ensures var v := CopyPages(to, from, pages);
            if n in pages && n in from then n in v && v[n] == from[n]
            else (n in v <==> n in to) && (n in to ==> v[n] == to[n])
    decreases |pages|
  {
    if pages != [] {
      var to1: Image := if pages[0] in from then to[pages[0] := from[pages[0]]] else to;
      CopyPagesContent(to1, from, pages[1..], n);
      assert pages == [pages[0]] + pages[1..];
    }
  }

  // ---------------------------------------------------------------------------------
  // The loops
  // ---------------------------------------------------------------------------------

  lemma {:induction false} UsesSame(s: Sys, s': Sys, r: nat, pages: seq<nat>, f: nat)
    requires forall i :: 0 <= i < |pages| ==> Leaf(s'.mem, r, pages[i]).frame == Leaf(s.mem, r, pages[i]).frame
    ensures Uses(s', r, pages, f) == Uses(s, r, pages, f)
  {
    if pages != [] {
      assert Leaf(s'.mem, r, pages[0]).frame == Leaf(s.mem, r, pages[0]).frame;
      UsesSame(s, s', r, pages[1..], f);
    }
  }

  /** After sharing the first page the loop is ready for the rest. */
  lemma ForkableNext(s: Sys, r: nat, c: nat, pages: seq<nat>)
    requires Inv(s) && Forkable(s, r, c, pages) && pages != []
    ensures var s1 := ForkPage(s, r, c, pages[0]);
            && CanShare(s, r, c, pages[0]) && Inv(s1) && Forkable(s1, r, c, pages[1..])
            && forall i :: 0 <= i < |pages[1..]| ==>
                 Leaf(s1.mem, r, pages[1..][i]) == Leaf(s.mem, r, pages[1..][i])
                 && Leaf(s1.mem, c, pages[1..][i]) == Leaf(s.mem, c, pages[1..][i])
  {
    hide ForkPage; hide Leaf; hide Inv;
    ForkPageFacts(s, r, c, pages[0]);
    var s1 := ForkPage(s, r, c, pages[0]);
    forall i | 0 <= i < |pages[1..]|
      ensures Leaf(s1.mem, r, pages[1..][i]) == Leaf(s.mem, r, pages[1..][i])
      ensures Leaf(s1.mem, c, pages[1..][i]) == Leaf(s.mem, c, pages[1..][i])
      ensures pages[1..][i] < USER_PAGES && Leaf(s1.mem, r, pages[1..][i]).p
    {
      assert pages[1..][i] == pages[i + 1] && pages[i + 1] != pages[0];
    }
  }

  /** The whole effect of the loops on translations: exactly the listed pages, in exactly two
      address spaces. */
  lemma {:induction false} ForkPagesLeaf(s: Sys, r: nat, c: nat, pages: seq<nat>, r': nat, n: nat)
    requires Inv(s) && Forkable(s, r, c, pages) && IsRoot(s.role, r') && n < ALL_PAGES
    ensures var s' := ForkPages(s, r, c, pages); var w := Leaf(s.mem, r, n);
            Leaf(s'.mem, r', n) ==
              if n in pages && r' == r then Shared(w)
              else if n in pages && r' == c then NewEntry(w.frame, Shared(w), false)
              else Leaf(s.mem, r', n)
    decreases |pages|
  {
    hide ForkPage; hide Leaf; hide Inv;
    if pages != [] {
      ForkableNext(s, r, c, pages);
      ForkPageFacts(s, r, c, pages[0]);
      var s1 := ForkPage(s, r, c, pages[0]);
      ForkPagesLeaf(s1, r, c, pages[1..], r', n);
      if n in pages[1..] {
        var i :| 0 <= i < |pages[1..]| && pages[1..][i] == n;
        assert pages[i + 1] == n && pages[0] != n;
        assert Leaf(s1.mem, r, pages[1..][i]) == Leaf(s.mem, r, pages[1..][i]);
      }
      assert pages == [pages[0]] + pages[1..];
    }
  }

  /** ... and on frames: the loops keep the invariant, the roots, all user data, and count
      every sharing once. */
  lemma {:induction false} ForkPagesFacts(s: Sys, r: nat, c: nat, pages: seq<nat>)
    requires Inv(s) && Forkable(s, r, c, pages)
    ensures var s' := ForkPages(s, r, c, pages);
            && Inv(s') && SameRootSet(s, s') && s'.kpages == s.kpages && |s'.info| == |s.info|
            && forall f :: 0 <= f < |s.info| ==> s'.info[f].refcount == s.info[f].refcount + Uses(s, r, pages, f)
    decreases |pages|
  {
    hide ForkPage; hide Leaf; hide Inv; hide Fits; hide AllMapped;
    if pages != [] {
      ForkableNext(s, r, c, pages);
      ForkPageFacts(s, r, c, pages[0]);
      var s1 := ForkPage(s, r, c, pages[0]);
      ForkPagesFacts(s1, r, c, pages[1..]);
      forall f ensures Uses(s1, r, pages[1..], f) == Uses(s, r, pages[1..], f) {
        UsesSame(s, s1, r, pages[1..], f);
      }
    }
  }

  lemma {:induction false} ForkPagesAccount(s: Sys, r: nat, c: nat, pages: seq<nat>)
    requires Inv(s) && Forkable(s, r, c, pages)
    requires forall i :: 0 <= i < |pages| ==> !Leaf(s.mem, c, pages[i]).p
    ensures Accounted(s, ForkPages(s, r, c, pages), true)
    decreases |pages|
  {
    hide ForkPage; hide Leaf; hide Inv; hide Accounted; hide Mappers;
    if pages == [] {
      SameAccount(s, s);
    } else {
      ForkableNext(s, r, c, pages);
      ForkPageAccount(s, r, c, pages[0]);
      ForkPagesAccount(ForkPage(s, r, c, pages[0]), r, c, pages[1..]);
      AccountedJoin(s, ForkPage(s, r, c, pages[0]), ForkPages(s, r, c, pages), true, true);
    }
  }

  lemma CountedNext(s: Sys, r: nat, c: nat, pages: seq<nat>)
    requires Inv(s) && Forkable(s, r, c, pages) && pages != [] && CountedPages(s, r, pages)
    ensures CountedPages(ForkPage(s, r, c, pages[0]), r, pages[1..])
    ensures InfoAt(s.info, Leaf(s.mem, r, pages[0]).frame).refcount >= 1
  {
    hide ForkPage; hide Leaf; hide Inv; hide Fits; hide DataKept;
    ForkableNext(s, r, c, pages);
    ForkPageFacts(s, r, c, pages[0]);
    var s1 := ForkPage(s, r, c, pages[0]);
    forall i | 0 <= i < |pages[1..]| ensures InfoAt(s1.info, Leaf(s1.mem, r, pages[1..][i]).frame).refcount >= 1 {
      assert Leaf(s1.mem, r, pages[1..][i]) == Leaf(s.mem, r, pages[i + 1]);
      MappedFrame(s, r, pages[i + 1]);
    }
  }

  /** Sharing counted pages is safe, and the child's image is the copy fork is meant to make. */
  lemma {:induction false} ForkPagesSafe(s: Sys, r: nat, c: nat, pages: seq<nat>)
    requires Safe(s) && Forkable(s, r, c, pages) && CountedPages(s, r, pages)
    ensures var s' := ForkPages(s, r, c, pages);
            Safe(s') && Views(s') == Views(s)[c := CopyPages(View(s, c), View(s, r), pages)]
    decreases |pages|
  {
    hide ForkPage; hide Leaf; hide Inv; hide Counted; hide Exclusive; hide View; hide Views; hide CountedPages; hide Fits;
    hide IsRoot;
    ViewOf(s, r);
    ViewOf(s, c);
    if pages == [] {
      Rewrite(Views(s), c, View(s, c));
    } else {
      var n := pages[0];
      ForkableNext(s, r, c, pages);
      CountedNext(s, r, c, pages);
      ForkPageSafe(s, r, c, n);
      var s1 := ForkPage(s, r, c, n);
      ViewOf(s1, r);
      ViewOf(s1, c);
      ForkPagesSafe(s1, r, c, pages[1..]);
      MappedView(s, r, n);
      Overwrite(Views(s), c, View(s1, c), CopyPages(View(s1, c), View(s, r), pages[1..]));
    }
  }

  lemma MappedView(s: Sys, r: nat, n: nat)
    requires n < USER_PAGES && Leaf(s.mem, r, n).p
    ensures n in View(s, r) && View(s, r)[n] == Content(s.mem, Leaf(s.mem, r, n).frame)
  {
    hide Leaf;
  }

  // ---------------------------------------------------------------------------------
  // User writes
  // ---------------------------------------------------------------------------------

  ghost predicate CanWrite(s: Sys, r: nat, n: nat, i: nat) {
    IsRoot(s.role, r) && n < USER_PAGES && Leaf(s.mem, r, n).p && Leaf(s.mem, r, n).w && i < ENTRIES
  }

  lemma UserWriteFacts(s: Sys, r: nat, n: nat, i: nat, v: Word)
    requires Inv(s) && CanWrite(s, r, n, i)
    ensures var s' := UserWrite(s, r, n, i, v); var f := Leaf(s.mem, r, n).frame;
            && Inv(s') && SameRootSet(s, s') && UserLeavesKept(s, s') && s'.info == s.info
            && UserFrame(s, f) && s'.mem == s.mem[f := s.mem[f][i := v]]
  {
    hide Leaf;
    MappedFrame(s, r, n);
    var f := Leaf(s.mem, r, n).frame;
    var s' := UserWrite(s, r, n, i, v);
    var m': Mem := Fill(s.mem, f, s.mem[f][i := v]);
    assert s'.mem == m';
    forall r': nat, k | IsRoot(s.role, r') && 0 <= k < ALL_PAGES ensures Leaf(m', r', k) == Leaf(s.mem, r', k) {
      FillLeaf(s.mem, s.role, f, s.mem[f][i := v], r', k);
    }
    assert forall g :: 0 <= g < |s.mem| && g != f ==> m'[g] == s.mem[g];
    assert LeavesOwned(s') by {
      forall g, j | 0 <= g < |s.mem| && 0 <= j < ENTRIES && IsUserPT(s.role[g]) && m'[g][j].p
        ensures UserFrame(s', m'[g][j].frame)
      {
        assert m'[g][j] == s.mem[g][j];
      }
    }
    assert KernelHalfShared(s');
  }

  /** Only the writer's own page maps the written frame, so no other content changes. */
  lemma UserWriteContents(s: Sys, s': Sys, r: nat, n: nat, i: nat, v: Word, r': nat, k: nat)
    requires Inv(s) && Exclusive(s) && CanWrite(s, r, n, i)
    requires IsRoot(s.role, r') && k < USER_PAGES && Leaf(s.mem, r', k).p && !(r' == r && k == n)
    requires var f := Leaf(s.mem, r, n).frame; UserFrame(s, f) && s'.mem == s.mem[f := s.mem[f][i := v]]
    ensures Content(s'.mem, Leaf(s.mem, r', k).frame) == Content(s.mem, Leaf(s.mem, r', k).frame)
  {
    hide Linked; hide LeavesOwned; hide KernelHalfShared; hide Leaf;
    var f := Leaf(s.mem, r, n).frame;
    assert Mappers(s, f) == {(r, n)};
    assert (r', k) !in Mappers(s, f);
  }

  lemma UserWriteView(s: Sys, s': Sys, r: nat, n: nat, i: nat, v: Word, r': nat)
    requires Inv(s) && Exclusive(s) && CanWrite(s, r, n, i) && IsRoot(s.role, r') && UserLeavesKept(s, s')
    requires var f := Leaf(s.mem, r, n).frame; UserFrame(s, f) && s'.mem == s.mem[f := s.mem[f][i := v]]
    ensures |Content(s.mem, Leaf(s.mem, r, n).frame)| == ENTRIES
    ensures View(s', r') ==
              if r' == r then View(s, r)[n := Content(s.mem, Leaf(s.mem, r, n).frame)[i := v]] else View(s, r')
  {
    hide Linked; hide LeavesOwned; hide KernelHalfShared; hide Leaf;
    assert |s.mem[Leaf(s.mem, r, n).frame]| == ENTRIES;
    hide Inv; hide Leaf;
    forall k: nat | k < USER_PAGES && Leaf(s.mem, r', k).p && !(r' == r && k == n)
      ensures Content(s'.mem, Leaf(s.mem, r', k).frame) == Content(s.mem, Leaf(s.mem, r', k).frame)
    {
      UserWriteContents(s, s', r, n, i, v, r', k);
    }
    assert forall k: nat :: k < USER_PAGES ==> Leaf(s'.mem, r', k) == Leaf(s.mem, r', k);
  }

  /** A store by one process changes one word of one page of that process, and nothing else
      that any process can see. */
  lemma UserWriteSafe(s: Sys, r: nat, n: nat, i: nat, v: Word)
    requires Safe(s) && CanWrite(s, r, n, i)
    ensures var s' := UserWrite(s, r, n, i, v);
            && Safe(s') && SameRootSet(s, s') && UserLeavesKept(s, s')
            && |Content(s.mem, Leaf(s.mem, r, n).frame)| == ENTRIES
            && Views(s') == Views(s)[r := View(s, r)[n := Content(s.mem, Leaf(s.mem, r, n).frame)[i := v]]]
  {
    UserWriteFacts(s, r, n, i, v);
    var s' := UserWrite(s, r, n, i, v);
    hide Inv; hide Leaf; hide UserWrite;
    SameLeaves(s, s');
    forall r': nat, k: nat | IsRoot(s'.role, r') && k < USER_PAGES && Leaf(s'.mem, r', k).p && Leaf(s'.mem, r', k).w
      ensures Mappers(s', Leaf(s'.mem, r', k).frame) == {(r', k)}
    {
      assert Leaf(s'.mem, r', k) == Leaf(s.mem, r', k);
    }
    UserWriteView(s, s', r, n, i, v, r);
    forall r': nat | IsRoot(s.role, r') && r' != r ensures View(s', r') == View(s, r') {
      UserWriteView(s, s', r, n, i, v, r');
    }
    ViewsExtend(s, s', r);
  }

  // ---------------------------------------------------------------------------------
  // Kernel pages and new roots do not show
  // ---------------------------------------------------------------------------------

  lemma MallocFacts(s: Sys)
    requires Inv(s) && CanMalloc(s)
    ensures var s' := Malloc(s);
            && Inv(s') && SameRootSet(s, s') && UserLeavesKept(s, s') && DataKept(s, s') && s'.cur == s.cur
            && |s'.info| == |s.info| && forall f :: 0 <= f < |s.info| ==> s'.info[f].refcount == s.info[f].refcount
  {
    MallocKeeps(s);
    var s' := Malloc(s);
    hide Malloc; hide Inv; hide Leaf;
    forall g | 0 <= g < |s.mem|
      ensures s'.info[g].refcount == s.info[g].refcount
      ensures UserFrame(s, g) ==> s'.mem[g] == s.mem[g]
    {
      if g != FindFree(s.info) {
        assert Kept(s, s', g);
      }
    }
  }

  /** States with the same mappings, translations and counts are equally safe. */
  lemma SafetyKept(s: Sys, s': Sys)
    requires Inv(s') && |s'.info| == |s.info|
    requires forall f :: Mappers(s', f) == Mappers(s, f)
    requires forall f :: 0 <= f < |s.info| ==> s'.info[f].refcount == s.info[f].refcount
    requires forall r: nat, n: nat :: IsRoot(s'.role, r) && n < USER_PAGES && Leaf(s'.mem, r, n).p ==>
               IsRoot(s.role, r) && Leaf(s'.mem, r, n) == Leaf(s.mem, r, n)
    ensures Safe(s) ==> Safe(s')
    ensures Counted(s') ==> Counted(s)
  {
    hide Leaf; hide Mappers;
    if Safe(s) {
      forall r: nat, n: nat | IsRoot(s'.role, r) && n < USER_PAGES && Leaf(s'.mem, r, n).p && Leaf(s'.mem, r, n).w
        ensures Mappers(s', Leaf(s'.mem, r, n).frame) == {(r, n)}
      {
        assert Leaf(s'.mem, r, n) == Leaf(s.mem, r, n);
      }
      assert Counted(s');
    }
  }

  ghost predicate SameCounts(s: Sys, s': Sys) {
    |s'.info| == |s.info| && forall f :: 0 <= f < |s.info| ==> s'.info[f].refcount == s.info[f].refcount
  }

  /** Kernel allocations are invisible in every address space. */
  lemma MallocSafe(s: Sys)
    requires Inv(s) && CanMalloc(s)
    ensures Safe(s) ==> Safe(Malloc(s))
    ensures Counted(Malloc(s)) ==> Counted(s)
    ensures Views(Malloc(s)) == Views(s)
  {
    MallocFacts(s);
    hide Malloc; hide Leaf; hide Inv;
    SameLeaves(s, Malloc(s));
    SafetyKept(s, Malloc(s));
  }

  lemma {:induction false} MallocTimesSafe(s: Sys, k: nat)
    requires Inv(s) && MallocFits(s, k)
    ensures var s' := MallocTimes(s, k);
            && Inv(s') && SameRootSet(s, s') && UserLeavesKept(s, s') && s'.cur == s.cur
            && (Safe(s) ==> Safe(s')) && (Counted(s') ==> Counted(s)) && Views(s') == Views(s)
            && SameCounts(s, s')
    decreases k
  {
    hide Malloc; hide Inv; hide Leaf; hide Safe; hide Counted; hide Views;
    if k > 0 {
      MallocFacts(s);
      MallocSafe(s);
      MallocTimesSafe(Malloc(s), k - 1);
    }
  }

  /** s' has the address spaces of s and an empty one at c. */
  ghost predicate EmptySpaceAdded(s: Sys, s': Sys, c: nat) {
    && !IsRoot(s.role, c) && |s'.role| == |s.role|
    && (forall r: nat :: IsRoot(s'.role, r) <==> IsRoot(s.role, r) || r == c)
    && UserLeavesKept(s, s')
    && (forall n :: 0 <= n < USER_PAGES ==> Leaf(s'.mem, c, n) == ZERO)
  }

  lemma CreateFacts(s: Sys)
    requires Inv(s) && CanMalloc(s)
    ensures var (s', c) := CreateUserMemory(s);
            && Inv(s') && s'.cur == s.cur && EmptySpaceAdded(s, s', c) && DataKept(s, s')
            && |s'.info| == |s.info| && forall f :: 0 <= f < |s.info| ==> s'.info[f].refcount == s.info[f].refcount
  {
    hide Leaf; hide Linked; hide LeavesOwned; hide KernelHalfShared; hide Malloc;
    CreateUserMemoryKeeps(s);
    var (s', c) := CreateUserMemory(s);
    assert !IsRoot(s.role, c);
    hide CreateUserMemory; hide Inv; hide Leaf;
    forall g | 0 <= g < |s.mem|
      ensures s'.info[g].refcount == s.info[g].refcount
      ensures UserFrame(s, g) ==> s'.mem[g] == s.mem[g]
    {
      if g != c {
        assert Kept(s, s', g);
      }
    }
  }

  lemma EmptySpaceMappers(s: Sys, s': Sys, c: nat, f: nat)
    requires EmptySpaceAdded(s, s', c)
    ensures Mappers(s', f) == Mappers(s, f)
  {
    hide Leaf;
    forall r: nat, n: nat | n < USER_PAGES ensures Maps(s', r, n, f) <==> Maps(s, r, n, f) {
      if IsRoot(s.role, r) {
        assert Leaf(s'.mem, r, n) == Leaf(s.mem, r, n);
      } else if r == c {
        assert Leaf(s'.mem, c, n) == ZERO;
      }
    }
  }

  lemma EmptySpaceViews(s: Sys, s': Sys, c: nat)
    requires Inv(s) && EmptySpaceAdded(s, s', c) && DataKept(s, s') && c < |s'.role|
    ensures Views(s') == Views(s)[c := map[]] && c !in Views(s)
  {
    hide Leaf; hide Linked; hide LeavesOwned; hide KernelHalfShared;
    forall r: nat | IsRoot(s.role, r) ensures View(s', r) == View(s, r) {
      SameView(s, s', r);
    }
    assert View(s', c) == map[] by {
      assert forall n: nat :: n < USER_PAGES ==> !Leaf(s'.mem, c, n).p;
    }
  }

  /** A new address space is empty and the others contain what they did. */
  lemma CreateSafe(s: Sys)
    requires Inv(s) && CanMalloc(s)
    ensures var (s', c) := CreateUserMemory(s);
            && (Safe(s) ==> Safe(s')) && (Counted(s') ==> Counted(s))
            && Views(s') == Views(s)[c := map[]] && c !in Views(s)
            && forall f :: Mappers(s', f) == Mappers(s, f)
  {
    CreateFacts(s);
    var (s', c) := CreateUserMemory(s);
    hide CreateUserMemory; hide Inv; hide Leaf; hide Mappers; hide Views;
    assert EmptySpaceAdded(s, s', c);
    EmptySpaceViews(s, s', c);
    forall f ensures Mappers(s', f) == Mappers(s, f) {
      EmptySpaceMappers(s, s', c, f);
    }
    assert forall n: nat :: n < USER_PAGES ==> Leaf(s'.mem, c, n) == ZERO;
    SafetyKept(s, s');
  }

  // ---------------------------------------------------------------------------------
  // The whole of fork
  // ---------------------------------------------------------------------------------

  /** The state in which the loops start: the child's address space exists and is empty. */
  function Spawned(s: Sys, r: nat): (Sys, nat) {
    CreateUserMemory(s.(cur := r))
  }

  /** fork's assumptions: the parent's ranges are distinct, mapped user pages, and no
      allocation finds memory exhausted. */
  ghost predicate CanFork(s: Sys, r: nat, g: Region) {
    && IsRoot(s.role, r) && Distinct(PagesOf(g)) && AllMapped(s, r, PagesOf(g))
    && CanMalloc(s.(cur := r))
    && var (s1, c) := Spawned(s, r);
       && Fits(s1, r, c, PagesOf(g))
       && MallocFits(ForkPages(s1, r, c, PagesOf(g)).(cur := r), KERNEL_STACK_PAGES)
  }

  lemma SpawnedSpace(s: Sys, r: nat)
    requires Inv(s) && IsRoot(s.role, r) && CanMalloc(s.(cur := r))
    ensures var (s1, c) := Spawned(s, r);
            && Inv(s1) && EmptySpaceAdded(s, s1, c)
            && (Safe(s) ==> Safe(s1)) && Views(s1) == Views(s)[c := map[]] && c !in Views(s)
            && (forall f :: Mappers(s1, f) == Mappers(s, f))
            && |s1.info| == |s.info| && forall f :: 0 <= f < |s.info| ==> s1.info[f].refcount == s.info[f].refcount
  {
    hide CreateUserMemory; hide Leaf; hide Mappers; hide Views; hide CanMalloc; hide Inv; hide Safe; hide Counted;
    SameButCur(s, r);
    CreateFacts(s.(cur := r));
    CreateSafe(s.(cur := r));
  }

  lemma SpawnedFacts(s: Sys, r: nat, g: Region)
    requires Inv(s) && CanFork(s, r, g)
    ensures var (s1, c) := Spawned(s, r);
            && Forkable(s1, r, c, PagesOf(g)) && IsRoot(s.role, r) && CanMalloc(s.(cur := r))
            && MallocFits(ForkPages(s1, r, c, PagesOf(g)).(cur := r), KERNEL_STACK_PAGES)
            && (CountedPages(s1, r, PagesOf(g)) <==> CountedPages(s, r, PagesOf(g)))
  {
    hide Spawned; hide Inv; hide Leaf; hide Mappers; hide Views; hide Fits; hide PagesOf; hide Safe; hide CanMalloc;
    hide MallocFits; hide ForkPages;
    SpawnedSpace(s, r);
    var (s1, c) := Spawned(s, r);
    var pages := PagesOf(g);
    forall i | 0 <= i < |pages|
      ensures Leaf(s1.mem, r, pages[i]) == Leaf(s.mem, r, pages[i])
      ensures InfoAt(s1.info, Leaf(s.mem, r, pages[i]).frame).refcount == InfoAt(s.info, Leaf(s.mem, r, pages[i]).frame).refcount
    {
    }
  }

  lemma ForkUnfold(s: Sys, r: nat, g: Region)
    ensures var (s1, c) := Spawned(s, r);
            Fork(s, r, g) == (MallocTimes(ForkPages(s1, r, c, PagesOf(g)).(cur := r), KERNEL_STACK_PAGES), c)
  {
  }

  /** When every shared page is counted, fork is safe, and it is the eager copy it stands for:
      the child starts with exactly the parent's ranges, and nobody else sees a change. */
  lemma ForkSafe(s: Sys, r: nat, g: Region)
    requires Safe(s) && CanFork(s, r, g) && CountedPages(s, r, PagesOf(g))
    ensures var (s', c) := Fork(s, r, g);
            && Safe(s') && c !in Views(s)
            && Views(s') == Views(s)[c := CopyPages(map[], View(s, r), PagesOf(g))]
  {
    assert Inv(s);
    hide *;
    var (s1, c) := Spawned(s, r);
    var pages := PagesOf(g);
    SpawnedFacts(s, r, g);
    SpawnedSpace(s, r);
    ForkUnfold(s, r, g);
    ForkPagesSafe(s1, r, c, pages);
    SpawnedViews(s, s1, r, c);
    Overwrite(Views(s), c, map[], CopyPages(View(s1, c), View(s1, r), pages));
    ForkedRoot(s1, r, c, pages);
    KernelStackSafe(ForkPages(s1, r, c, pages), r);
  }

  lemma {:induction false} MallocTimesPages(s: Sys, k: nat)
    requires Inv(s) && MallocFits(s, k)
    ensures MallocTimes(s, k).kpages == s.kpages + k
    decreases k
  {
    hide Malloc; hide Inv; hide Leaf; hide CanMalloc;
    if k > 0 {
      MallocFacts(s);
      MallocGrows(s);
      MallocTimesPages(Malloc(s), k - 1);
    }
  }

  lemma MallocGrows(s: Sys)
    requires Inv(s) && CanMalloc(s)
    ensures Malloc(s).kpages == s.kpages + 1
  {
    MallocKeeps(s);
  }

  /** The whole of fork on translations: the parent's listed pages lose their write permission and
      become copy-on-write, the child gets the same frames with the same permissions but for that of
      not executing, and it has no other page; every other address space is as it was.  Six pages of
      the kernel's heap have gone to the child's root and kernel stack, and the parent is active. */
  lemma ForkLeaf(s: Sys, r: nat, g: Region, r': nat, n: nat)
    requires Inv(s) && CanFork(s, r, g) && (IsRoot(s.role, r') || r' == Fork(s, r, g).1) && n < USER_PAGES
    ensures var (s', c) := Fork(s, r, g); var w := Leaf(s.mem, r, n); var e := Leaf(s'.mem, r', n);
            && !IsRoot(s.role, c) && IsRoot(s'.role, r') && s'.cur == r && s'.kpages == s.kpages + 6
            && (n in PagesOf(g) && r' == r ==> e == w.(w := false, cow := true))
            && (n in PagesOf(g) && r' == c ==>
                  e.p == w.p && e.frame == w.frame && e.u == w.u && !e.w && e.cow && !e.xd)
            && (n !in PagesOf(g) && r' == c ==> !e.p && !e.cow)
            && (r' != c && !(n in PagesOf(g) && r' == r) ==> e == Leaf(s.mem, r', n))
  {
    hide Spawned; hide Inv; hide Leaf; hide Mappers; hide Views; hide Fits; hide PagesOf; hide Safe; hide CanMalloc; hide Fork;
    hide MallocFits; hide ForkPages; hide MallocTimes; hide Forkable; hide CountedPages; hide CanFork; hide Counted; hide Uses;
    var (s1, c) := Spawned(s, r);
    var pages := PagesOf(g);
    SpawnedFacts(s, r, g);
    SpawnedSpace(s, r);
    ForkUnfold(s, r, g);
    SpawnedRoots(s, r, c, r', pages);
    ForkPagesLeaf(s1, r, c, pages, r', n);
    ForkPagesKeep(s1, r, c, pages);
    var s2 := ForkPages(s1, r, c, pages);
    SameButCur(s2, r);
    MallocTimesSafe(s2.(cur := r), KERNEL_STACK_PAGES);
    MallocTimesPages(s2.(cur := r), KERNEL_STACK_PAGES);
  }

  lemma SpawnedRoots(s: Sys, r: nat, c: nat, r': nat, pages: seq<nat>)
    requires Inv(s) && IsRoot(s.role, r) && CanMalloc(s.(cur := r)) && c == Spawned(s, r).1 && (IsRoot(s.role, r') || r' == c)
    requires Forkable(Spawned(s, r).0, r, c, pages)
    ensures var s1 := Spawned(s, r).0; IsRoot(s1.role, r') && s1.kpages == s.kpages + 1 && r != c
  {
    hide CreateUserMemory; hide CanMalloc; hide Leaf; hide Fits;
    SameButCur(s, r);
    hide Inv;
    CreateUserMemoryKeeps(s.(cur := r));
  }

  lemma ForkPagesKeep(s: Sys, r: nat, c: nat, pages: seq<nat>)
    requires Inv(s) && Forkable(s, r, c, pages)
    ensures var s' := ForkPages(s, r, c, pages); Inv(s') && SameRootSet(s, s') && s'.kpages == s.kpages && IsRoot(s.role, r)
  {
    hide ForkPages; hide Inv; hide Leaf; hide Fits; hide Uses;
    ForkPagesFacts(s, r, c, pages);
  }

  lemma Overwrite<K, V>(m: map<K, V>, k: K, v: V, w: V)
    ensures m[k := v][k := w] == m[k := w]
  {
  }

  /** Allocating the child's kernel stack after the loops, in the parent's address space. */
  lemma KernelStackSafe(s: Sys, r: nat)
    requires Inv(s) && IsRoot(s.role, r) && MallocFits(s.(cur := r), KERNEL_STACK_PAGES)
    ensures var s' := MallocTimes(s.(cur := r), KERNEL_STACK_PAGES);
            && Inv(s') && SameRootSet(s, s') && UserLeavesKept(s, s')
            && (Safe(s) ==> Safe(s')) && Views(s') == Views(s) && (Counted(s') ==> Counted(s))
            && SameCounts(s, s')
  {
    hide MallocTimes; hide Leaf; hide Views; hide MallocFits;
    SameButCur(s, r);
    assert Counted(s.(cur := r)) ==> Counted(s);
    hide Inv; hide Safe; hide Counted; hide Mappers;
    MallocTimesSafe(s.(cur := r), KERNEL_STACK_PAGES);
  }

  lemma ForkedRoot(s: Sys, r: nat, c: nat, pages: seq<nat>)
    requires Inv(s) && Forkable(s, r, c, pages)
    ensures var s2 := ForkPages(s, r, c, pages); Inv(s2) && IsRoot(s2.role, r)
  {
    hide ForkPages; hide Inv; hide Leaf; hide Fits; hide AllMapped; hide Distinct; hide Uses;
    ForkPagesFacts(s, r, c, pages);
  }

  lemma SpawnedViews(s: Sys, s1: Sys, r: nat, c: nat)
    requires IsRoot(s.role, r) && EmptySpaceAdded(s, s1, c) && Views(s1) == Views(s)[c := map[]] && c !in Views(s)
    ensures View(s1, c) == map[] && View(s1, r) == View(s, r)
  {
    hide View; hide Leaf;
    assert r in Views(s) && c in Views(s1);
    assert View(s1, c) == Views(s1)[c] && View(s1, r) == Views(s1)[r] == Views(s)[r];
  }

  lemma {:induction false} UsesOnce(s: Sys, r: nat, pages: seq<nat>, n: nat, f: nat)
    requires Distinct(pages) && AllMapped(s, r, pages) && IsRoot(s.role, r) && Mappers(s, f) <= {(r, n)}
    ensures Uses(s, r, pages, f) <= if n in pages then 1 else 0
  {
    hide Leaf;
    if pages != [] {
      assert pages == [pages[0]] + pages[1..];
      assert forall i :: 0 <= i < |pages[1..]| ==> pages[1..][i] == pages[i + 1];
      UsesOnce(s, r, pages[1..], n, f);
      if Leaf(s.mem, r, pages[0]).frame == f {
        assert (r, pages[0]) in Mappers(s, f);
        assert n == pages[0] && n !in pages[1..];
      }
    }
  }

  /** An uncounted page has a single mapping; the loops leave it with two mappings and one
      reference. */
  lemma UncountedShared(s: Sys, r: nat, c: nat, pages: seq<nat>, n: nat)
    requires Inv(s) && Counted(s) && Forkable(s, r, c, pages) && n in pages
    requires InfoAt(s.info, Leaf(s.mem, r, n).frame).refcount == 0
    ensures var s' := ForkPages(s, r, c, pages); var f := Leaf(s.mem, r, n).frame;
            && f < |s'.info| && s'.info[f].refcount <= 1
            && (r, n) in Mappers(s', f) && (c, n) in Mappers(s', f) && !Counted(s')
  {
    hide ForkPages; hide Inv; hide Leaf; hide Fits;
    var f := Leaf(s.mem, r, n).frame;
    var s' := ForkPages(s, r, c, pages);
    assert n < USER_PAGES && Leaf(s.mem, r, n).p;
    MappedFrame(s, r, n);
    Singleton(Mappers(s, f), (r, n));
    UsesOnce(s, r, pages, n, f);
    ForkPagesFacts(s, r, c, pages);
    ForkPagesLeaf(s, r, c, pages, r, n);
    ForkPagesLeaf(s, r, c, pages, c, n);
    assert Maps(s', r, n, f) && Maps(s', c, n, f);
    assert {(r, n), (c, n)} <= Mappers(s', f);
    SubsetSize({(r, n), (c, n)}, Mappers(s', f));
  }

  /** Exactly when fork is safe as written: if and only if every page it shares has a
      reference, which a page privatised by a copy-on-write copy has not. */
  lemma ForkSafeIff(s: Sys, r: nat, g: Region)
    requires Safe(s) && CanFork(s, r, g)
    ensures Safe(Fork(s, r, g).0) <==> CountedPages(s, r, PagesOf(g))
  {
    if CountedPages(s, r, PagesOf(g)) {
      ForkSafe(s, r, g);
    } else {
      UncountedFork(s, r, g);
    }
  }

  lemma UncountedFork(s: Sys, r: nat, g: Region)
    requires Inv(s) && Counted(s) && CanFork(s, r, g) && !CountedPages(s, r, PagesOf(g))
    ensures !Counted(Fork(s, r, g).0)
  {
    hide Spawned; hide Inv; hide Leaf; hide Fork; hide Mappers; hide Forkable; hide CanFork; hide PagesOf; hide CanMalloc;
    hide ForkPages; hide MallocFits; hide MallocTimes; hide Views; hide Safe;
    var (s1, c) := Spawned(s, r);
    var pages := PagesOf(g);
    SpawnedFacts(s, r, g);
    SpawnedSpace(s, r);
    ForkUnfold(s, r, g);
    var i :| 0 <= i < |pages| && InfoAt(s1.info, Leaf(s1.mem, r, pages[i]).frame).refcount < 1;
    assert Counted(s1);
    UncountedShared(s1, r, c, pages, pages[i]);
    ForkedRoot(s1, r, c, pages);
    KernelStackSafe(ForkPages(s1, r, c, pages), r);
  }

  /** What a process reads at word i of page n. */
  function UserRead(s: Sys, r: nat, n: nat, i: nat): Word {
    Peek(s.mem, Leaf(s.mem, r, n).frame, i)
  }

  /** Two address spaces map the same frame, and the count says there is at most one. */
  ghost predicate Miscounted(s: Sys, r: nat, c: nat, n: nat) {
    && IsRoot(s.role, r) && IsRoot(s.role, c) && r != c && n < USER_PAGES
    && Leaf(s.mem, r, n).p && Leaf(s.mem, r, n).cow && Leaf(s.mem, c, n).p
    && Leaf(s.mem, c, n).frame == Leaf(s.mem, r, n).frame
    && InfoAt(s.info, Leaf(s.mem, r, n).frame).refcount <= 1
  }

  /** A write through the fault handler to a miscounted page is read by the other process. */
  lemma MiscountLeaks(s: Sys, r: nat, c: nat, n: nat, i: nat, v: Word)
    requires Inv(s) && Miscounted(s, r, c, n) && i < ENTRIES
    ensures UserRead(UserWrite(CowFault(s.(cur := r), n), r, n, i, v), c, n, i) == v
  {
    hide Leaf; hide CowFault; hide Inv; hide UserWrite;
    var s0 := s.(cur := r);
    SameButCur(s, r);
    CowInPlaceFacts(s0, n);
    var s1 := CowFault(s0, n);
    assert Leaf(s1.mem, c, n) == Leaf(s0.mem, c, n);
    UserWriteFacts(s1, r, n, i, v);
    WriteIsRead(s1, UserWrite(s1, r, n, i, v), r, c, n, i, v);
  }

  lemma WriteIsRead(s: Sys, s': Sys, r: nat, c: nat, n: nat, i: nat, v: Word)
    requires Inv(s) && IsRoot(s.role, c) && n < USER_PAGES && UserLeavesKept(s, s') && i < ENTRIES
    requires var f := Leaf(s.mem, r, n).frame;
             UserFrame(s, f) && Leaf(s.mem, c, n).frame == f && s'.mem == s.mem[f := s.mem[f][i := v]]
    ensures UserRead(s', c, n, i) == v
  {
    hide Leaf;
    assert Leaf(s'.mem, c, n) == Leaf(s.mem, c, n);
  }

  /** The uncounted case is not only unsafe, it is observable: after fork the parent's next
      write to such a page shows up in the child. */
  lemma UncountedForkLeaks(s: Sys, r: nat, g: Region, n: nat, i: nat, v: Word)
    requires Safe(s) && CanFork(s, r, g) && n in PagesOf(g) && i < ENTRIES
    requires InfoAt(s.info, Leaf(s.mem, r, n).frame).refcount == 0
    ensures var (s', c) := Fork(s, r, g);
            && Inv(s') && Miscounted(s', r, c, n)
            && UserRead(UserWrite(CowFault(s'.(cur := r), n), r, n, i, v), c, n, i) == v
  {
    assert Inv(s) && Counted(s);
    var (s', c) := Fork(s, r, g);
    hide *;
    SpawnedFacts(s, r, g);
    SpawnedSpace(s, r);
    ForkUnfold(s, r, g);
    var s1 := Spawned(s, r).0;
    SpawnedCount(s, s1, r, c, PagesOf(g), n);
    ForkedMiscount(s1, r, c, PagesOf(g), n);
    KernelStackSafe(ForkPages(s1, r, c, PagesOf(g)), r);
    MiscountKept(ForkPages(s1, r, c, PagesOf(g)), s', r, c, n);
    MiscountLeaks(s', r, c, n, i, v);
  }

  lemma SpawnedCount(s: Sys, s1: Sys, r: nat, c: nat, pages: seq<nat>, n: nat)
    requires EmptySpaceAdded(s, s1, c) && IsRoot(s.role, r) && Forkable(s1, r, c, pages) && n in pages
    requires SameCounts(s, s1) && (forall f :: Mappers(s1, f) == Mappers(s, f)) && Counted(s)
    requires InfoAt(s.info, Leaf(s.mem, r, n).frame).refcount == 0
    ensures Counted(s1) && InfoAt(s1.info, Leaf(s1.mem, r, n).frame).refcount == 0
  {
    hide Leaf; hide Mappers; hide Fits;
    assert n < USER_PAGES;
    assert Leaf(s1.mem, r, n) == Leaf(s.mem, r, n);
  }

  lemma ForkedMiscount(s: Sys, r: nat, c: nat, pages: seq<nat>, n: nat)
    requires Inv(s) && Counted(s) && Forkable(s, r, c, pages) && n in pages
    requires InfoAt(s.info, Leaf(s.mem, r, n).frame).refcount == 0
    ensures var s' := ForkPages(s, r, c, pages); Inv(s') && Miscounted(s', r, c, n)
  {
    hide ForkPages; hide Inv; hide Leaf; hide Fits; hide Uses; hide Mappers; hide Counted;
    assert n < USER_PAGES && Leaf(s.mem, r, n).p;
    UncountedShared(s, r, c, pages, n);
    ForkPagesFacts(s, r, c, pages);
    ForkPagesLeaf(s, r, c, pages, r, n);
    ForkPagesLeaf(s, r, c, pages, c, n);
  }

  lemma MiscountKept(s: Sys, s': Sys, r: nat, c: nat, n: nat)
    requires Miscounted(s, r, c, n) && SameRootSet(s, s') && UserLeavesKept(s, s') && SameCounts(s, s')
    ensures Miscounted(s', r, c, n)
  {
    hide Leaf;
    assert Leaf(s'.mem, r, n) == Leaf(s.mem, r, n) && Leaf(s'.mem, c, n) == Leaf(s.mem, c, n);
  }

  // ---------------------------------------------------------------------------------
  // Reference accounting
  // ---------------------------------------------------------------------------------

  lemma ForkAccount(s: Sys, r: nat, g: Region)
    requires Inv(s) && CanFork(s, r, g)
    ensures Accounted(s, Fork(s, r, g).0, true)
  {
    hide Spawned; hide Inv; hide Leaf; hide Fork; hide Forkable; hide CanFork; hide CanMalloc; hide Mappers; hide Accounted;
    hide ForkPages; hide MallocFits; hide MallocTimes; hide Views; hide Safe; hide Counted;
    var (s1, c) := Spawned(s, r);
    var pages := PagesOf(g);
    SpawnedFacts(s, r, g);
    SpawnedSpace(s, r);
    ForkUnfold(s, r, g);
    SameAccount(s, s1);
    EmptyChild(s, s1, r, c, pages);
    ForkPagesAccount(s1, r, c, pages);
    ForkedRoot(s1, r, c, pages);
    var s2 := ForkPages(s1, r, c, pages);
    KernelStackSafe(s2, r);
    var s3 := MallocTimes(s2.(cur := r), KERNEL_STACK_PAGES);
    SameLeaves(s2, s3);
    SameAccount(s2, s3);
    AccountedJoin(s, s1, s2, true, true);
    AccountedJoin(s, s2, s3, true, true);
  }

  lemma EmptyChild(s: Sys, s1: Sys, r: nat, c: nat, pages: seq<nat>)
    requires EmptySpaceAdded(s, s1, c) && Forkable(s1, r, c, pages)
    ensures forall i :: 0 <= i < |pages| ==> !Leaf(s1.mem, c, pages[i]).p
  {
    hide Leaf;
  }

  /** Reference accounting: the whole of fork, kernel stack and all, keeps exact counts exact. */
  lemma ForkExact(s: Sys, r: nat, g: Region)
    requires Inv(s) && Exact(s) && CanFork(s, r, g)
    ensures Exact(Fork(s, r, g).0)
  {
    hide Inv; hide Fork; hide CanFork; hide Accounted; hide Exact;
    ForkAccount(s, r, g);
    AccountedExact(s, Fork(s, r, g).0, true);
  }
}
