/**
  From boot to whole runs: the loading of programs (LoadElf in
  src/kernel/drivers/Userland/Tasks.c), the end of processes, and what holds of every state
  reached from the one the kernel starts in.
 */
module Launch {
  import opened Words
  import opened PageTables
  import opened AddressSpace
  import opened CopyOnWrite
  import opened Fork
  import opened MemoryRuns
  import opened Faults
  import opened CountedCopies
  import opened Exits
  import opened DirectMap
  import opened Boot

  // ---------------------------------------------------------------------------------
  // Loading a program
  // ---------------------------------------------------------------------------------

  /** A page to be loaded, with the permissions of its segment. */
  datatype Page = Page(n: nat, w: bool, xd: bool)

  function PageFlags(p: Page): Word {
    USER_FLAGS.(w := p.w)
  }

  /** alloc_page of the next free frame at the page. */
  function LoadPage(s: Sys, p: Page): Sys {
    Alloc(s, p.n, FindFree(s.info), PageFlags(p), p.xd)
  }

  function LoadPages(s: Sys, ps: seq<Page>): Sys
    decreases |ps|
  {
    if ps == [] then s else LoadPages(LoadPage(s, ps[0]), ps[1..])
  }

  /** LoadElf: a new address space, the stack page and the pages of the segments, in that
      order, and a kernel stack; then the caller's root is active again. */
  function Load(s: Sys, ps: seq<Page>): (Sys, nat) {
    var (s1, c) := CreateUserMemory(s);
    (MallocTimes(LoadPages(s1.(cur := c), ps), KERNEL_STACK_PAGES).(cur := s.cur), c)
  }

  const STACK_PAGE: nat := 0x7_FFF0

  /** The pages of a program: its stack page, writable, and its segments'. */
  function Program(segments: seq<Page>): seq<Page> {
    [Page(STACK_PAGE, true, false)] + segments
  }

  /** What MemoryData says of the program. */
  function RegionOf(segments: seq<Page>): Region {
    Region(if segments == [] then 0 else segments[0].n, |segments|, STACK_PAGE, 1)
  }

  ghost predicate LoadFits(s: Sys, ps: seq<Page>)
    decreases |ps|
  {
    ps == [] || (CanMapFresh(s, ps[0].n) && LoadFits(LoadPage(s, ps[0]), ps[1..]))
  }

  /** No allocation finds memory exhausted. */
  ghost predicate CanLoad(s: Sys, ps: seq<Page>) {
    && CanMalloc(s)
    && var (s1, c) := CreateUserMemory(s);
       LoadFits(s1.(cur := c), ps) && MallocFits(LoadPages(s1.(cur := c), ps), KERNEL_STACK_PAGES)
  }

  // ---------------------------------------------------------------------------------
  // What loading does
  // ---------------------------------------------------------------------------------

  /** From a to a' the image of r has a new page n, or a new content there, and no other changed. */
  ghost predicate OnePut(a: map<nat, Image>, a': map<nat, Image>, r: nat, n: nat) {
    r in a && exists content :: a' == a[r := PutPage(a[r], n, content)]
  }

  /** A page loaded appears in the current address space and nowhere else. */
  lemma LoadPageSafe(s: Sys, p: Page)
    requires Safe(s) && CanMapFresh(s, p.n)
    ensures var s' := LoadPage(s, p);
            && Safe(s') && s'.cur == s.cur && SameRootSet(s, s')
            && OnePut(Views(s), Views(s'), s.cur, p.n)
  {
    assert Inv(s) && IsRoot(s.role, s.cur);
    hide Leaf; hide Inv; hide FindFree; hide CanAlloc; hide Mappers; hide View; hide Views; hide Alloc; hide Safe; hide OnePut;
    FreshShareable(s);
    var f := FindFree(s.info);
    AllocSafe(s, p.n, f, PageFlags(p), p.xd);
    ViewOf(s, s.cur);
    PutOne(Views(s), Views(LoadPage(s, p)), s.cur, View(s, s.cur), p.n, s.mem[f]);
  }

  lemma PutOne(a: map<nat, Image>, a': map<nat, Image>, r: nat, v: Image, n: nat, content: seq<Word>)
    requires r in a && a[r] == v && a' == a[r := v[n := content]]
    ensures OnePut(a, a', r, n)
  {
    assert a' == a[r := PutPage(a[r], n, content)];
  }

  function Numbers(ps: seq<Page>): set<nat> {
    set i | 0 <= i < |ps| :: ps[i].n
  }

  /** From a to a' the image of r gained the pages ns and no other image changed. */
  ghost predicate Gained(a: map<nat, Image>, a': map<nat, Image>, r: nat, ns: set<nat>) {
    r in a && r in a' && a' == a[r := a'[r]] && a'[r].Keys == a[r].Keys + ns
  }

  lemma GainedNext(a: map<nat, Image>, b: map<nat, Image>, c: map<nat, Image>, r: nat, n: nat, ns: set<nat>)
    requires OnePut(a, b, r, n) && Gained(b, c, r, ns)
    ensures Gained(a, c, r, {n} + ns)
  {
    assert c == a[r := c[r]];
  }

  lemma {:induction false} LoadPagesSafe(s: Sys, ps: seq<Page>)
    requires Safe(s) && LoadFits(s, ps)
    ensures var s' := LoadPages(s, ps);
            && Safe(s') && s'.cur == s.cur && SameRootSet(s, s')
            && Gained(Views(s), Views(s'), s.cur, Numbers(ps))
    decreases |ps|
  {
    assert IsRoot(s.role, s.cur);
    ViewOf(s, s.cur);
    hide LoadPage; hide Safe; hide Views; hide CanMapFresh; hide OnePut; hide Gained; hide Numbers;
    if ps == [] {
      GainedNone(Views(s), s.cur);
    } else {
      LoadPageSafe(s, ps[0]);
      var s1 := LoadPage(s, ps[0]);
      LoadPagesSafe(s1, ps[1..]);
      GainedNext(Views(s), Views(s1), Views(LoadPages(s, ps)), s.cur, ps[0].n, Numbers(ps[1..]));
      NumbersFirst(ps);
    }
  }

  lemma GainedNone(a: map<nat, Image>, r: nat)
    requires r in a
    ensures Gained(a, a, r, Numbers([]))
  {
    Rewrite(a, r, a[r]);
  }

  lemma NumbersFirst(ps: seq<Page>)
    requires ps != []
    ensures Numbers(ps) == {ps[0].n} + Numbers(ps[1..])
  {
    assert forall i :: 0 <= i < |ps| - 1 ==> ps[1..][i] == ps[i + 1];
    forall n | n in Numbers(ps) ensures n in {ps[0].n} + Numbers(ps[1..]) {
      var i :| 0 <= i < |ps| && ps[i].n == n;
      assert i > 0 ==> ps[1..][i - 1].n == n;
    }
  }

  /** A loaded program has exactly its pages; the other processes have what they had. */
  lemma LoadSafe(s: Sys, ps: seq<Page>)
    requires Safe(s) && CanLoad(s, ps)
    ensures var (s', c) := Load(s, ps);
            && Safe(s') && IsRoot(s'.role, s.cur) && s'.cur == s.cur && c !in Views(s)
            && exists v: Image :: v.Keys == Numbers(ps) && Views(s') == Views(s)[c := v]
  {
    assert Inv(s) && IsRoot(s.role, s.cur);
    hide CreateUserMemory; hide Safe; hide Views; hide LoadPages; hide LoadFits; hide MallocTimes; hide MallocFits;
    hide CanMalloc; hide Leaf; hide Mappers; hide Counted; hide Exclusive;
    CreateFacts(s);
    CreateSafe(s);
    var (s1, c) := CreateUserMemory(s);
    hide Inv; hide UserLeavesKept;
    SameButCur(s1, c);
    var s2 := LoadPages(s1.(cur := c), ps);
    LoadPagesSafe(s1.(cur := c), ps);
    SafeInv(s2);
    MallocTimesSafe(s2, KERNEL_STACK_PAGES);
    var s3 := MallocTimes(s2, KERNEL_STACK_PAGES);
    SameButCur(s3, s.cur);
    NewImage(Views(s), Views(s2), c, Numbers(ps));
  }

  lemma SafeInv(s: Sys)
    requires Safe(s)
    ensures Inv(s)
  {
  }

  lemma NewImage(a: map<nat, Image>, b: map<nat, Image>, c: nat, ns: set<nat>)
    requires c !in a && Gained(a[c := map[]], b, c, ns)
    ensures exists v: Image :: v.Keys == ns && b == a[c := v]
  {
    assert b == a[c := b[c]] && b[c].Keys == ns;
  }

  // ---------------------------------------------------------------------------------
  // Reference accounting
  // ---------------------------------------------------------------------------------

  /** The pages are different, and the current address space has none of them. */
  ghost predicate NewPages(s: Sys, ps: seq<Page>) {
    && DistinctPages(ps)
    && forall i :: 0 <= i < |ps| ==> !Leaf(s.mem, s.cur, ps[i].n).p
  }

  predicate DistinctPages(ps: seq<Page>) {
    forall i, j :: 0 <= i < j < |ps| ==> ps[i].n != ps[j].n
  }

  lemma LoadPageFacts(s: Sys, p: Page)
    requires Inv(s) && CanMapFresh(s, p.n)
    ensures var s' := LoadPage(s, p);
            && Inv(s') && SameRootSet(s, s') && s'.cur == s.cur && s'.kpages == s.kpages
            && Free(s'.info) <= Free(s.info) - {FindFree(s.info)}
            && p.n < USER_PAGES && Leaf(s'.mem, s.cur, p.n) == NewEntry(FindFree(s.info), PageFlags(p), p.xd)
            && (forall k: nat :: k < USER_PAGES && k != p.n ==> Leaf(s'.mem, s.cur, k) == Leaf(s.mem, s.cur, k))
            && Accounted(s, s', !Leaf(s.mem, s.cur, p.n).p)
  {
    hide Alloc; hide Inv; hide Leaf; hide CanAlloc; hide FindFree; hide DataKept; hide Accounted; hide Free;
    assert p.n < USER_PAGES by {
      AllocPageInRange(s, p.n);
    }
    AllocFacts(s, p.n, FindFree(s.info), PageFlags(p), p.xd);
    AllocAccount(s, p.n, FindFree(s.info), PageFlags(p), p.xd);
  }

  lemma AllocPageInRange(s: Sys, n: nat)
    requires CanMapFresh(s, n)
    ensures n < USER_PAGES
  {
  }

  lemma NewPagesNext(s: Sys, s1: Sys, ps: seq<Page>)
    requires ps != [] && s1.cur == s.cur && Leaf(s1.mem, s.cur, ps[0].n).p
    requires forall i :: 0 < i < |ps| && ps[i].n != ps[0].n ==> Leaf(s1.mem, s.cur, ps[i].n) == Leaf(s.mem, s.cur, ps[i].n)
    ensures NewPages(s, ps) <==> !Leaf(s.mem, s.cur, ps[0].n).p && NewPages(s1, ps[1..])
  {
    hide Leaf;
    assert forall i :: 0 <= i < |ps[1..]| ==> ps[1..][i] == ps[i + 1];
    if !Leaf(s.mem, s.cur, ps[0].n).p && NewPages(s1, ps[1..]) {
      forall i | 0 < i < |ps| ensures ps[i].n != ps[0].n && !Leaf(s.mem, s.cur, ps[i].n).p {
        assert ps[1..][i - 1] == ps[i];
      }
      forall i, j | 0 <= i < j < |ps| ensures ps[i].n != ps[j].n {
        if i > 0 {
          assert ps[1..][i - 1].n != ps[1..][j - 1].n;
        }
      }
    }
    if NewPages(s, ps) {
      forall i | 0 <= i < |ps[1..]| ensures !Leaf(s1.mem, s.cur, ps[1..][i].n).p {
        assert ps[i + 1].n != ps[0].n;
      }
    }
  }

  lemma {:induction false} LoadInRange(s: Sys, ps: seq<Page>)
    requires LoadFits(s, ps)
    ensures forall i :: 0 <= i < |ps| ==> ps[i].n < USER_PAGES
    decreases |ps|
  {
    hide LoadPage; hide CanMapFresh;
    if ps != [] {
      AllocPageInRange(s, ps[0].n);
      LoadInRange(LoadPage(s, ps[0]), ps[1..]);
      forall i | 0 < i < |ps| ensures ps[i].n < USER_PAGES {
        assert ps[1..][i - 1] == ps[i];
      }
    }
  }

  lemma {:induction false} LoadPagesAccount(s: Sys, ps: seq<Page>)
    requires Inv(s) && LoadFits(s, ps)
    ensures var s' := LoadPages(s, ps);
            && Inv(s') && SameRootSet(s, s') && s'.cur == s.cur && s'.kpages == s.kpages && Free(s'.info) <= Free(s.info)
            && Accounted(s, s', NewPages(s, ps))
    decreases |ps|
  {
    hide LoadPage; hide CanMapFresh; hide Inv; hide Accounted; hide Leaf; hide Free; hide FindFree; hide Mappers;
    if ps == [] {
      SameAccount(s, s);
    } else {
      var s1 := LoadPage(s, ps[0]);
      LoadInRange(s, ps);
      LoadPageFacts(s, ps[0]);
      LoadPagesAccount(s1, ps[1..]);
      NewPagesNext(s, s1, ps);
      AccountedJoin(s, s1, LoadPages(s, ps), !Leaf(s.mem, s.cur, ps[0].n).p, NewPages(s1, ps[1..]));
    }
  }

  lemma EmptyIsNew(s: Sys, c: nat, ps: seq<Page>)
    requires LoadFits(s.(cur := c), ps) && forall n :: 0 <= n < USER_PAGES ==> Leaf(s.mem, c, n) == ZERO
    ensures NewPages(s.(cur := c), ps) <==> DistinctPages(ps)
  {
    hide Leaf;
    LoadInRange(s.(cur := c), ps);
  }

  /** Loading counts what it maps, unless two segments share a page: the second maps over what the
      first has loaded. */
  lemma LoadAccount(s: Sys, ps: seq<Page>)
    requires Inv(s) && CanLoad(s, ps)
    ensures Accounted(s, Load(s, ps).0, DistinctPages(ps))
  {
    assert IsRoot(s.role, s.cur);
    hide CreateUserMemory; hide Views; hide LoadPages; hide LoadFits; hide MallocTimes; hide MallocFits; hide Safe;
    hide CanMalloc; hide Leaf; hide Mappers; hide Accounted; hide Counted; hide Inv; hide DistinctPages;
    CreateFacts(s);
    CreateSafe(s);
    var (s1, c) := CreateUserMemory(s);
    SameButCur(s1, c);
    SameAccount(s, s1.(cur := c));
    LoadPagesAccount(s1.(cur := c), ps);
    EmptyIsNew(s1, c, ps);
    var s2 := LoadPages(s1.(cur := c), ps);
    MallocTimesSafe(s2, KERNEL_STACK_PAGES);
    var s3 := MallocTimes(s2, KERNEL_STACK_PAGES);
    SameLeaves(s2, s3);
    SameButCur(s3, s.cur);
    SameAccount(s2, s3.(cur := s.cur));
    AccountedJoin(s, s1.(cur := c), s2, true, DistinctPages(ps));
    AccountedJoin(s, s2, s3.(cur := s.cur), DistinctPages(ps), true);
  }

  // ---------------------------------------------------------------------------------
  // What a program may do with its pages
  // ---------------------------------------------------------------------------------

  /** The entry lets the program use the page as its segment says. */
  predicate Grants(e: Word, p: Page) {
    e.p && e.u && !e.cow && e.w == p.w && e.xd == p.xd
  }

  /** A page that is not in the list is left alone. */
  lemma {:induction false} LoadPagesElsewhere(s: Sys, ps: seq<Page>, n: nat)
    requires Inv(s) && LoadFits(s, ps) && n < USER_PAGES && forall i :: 0 <= i < |ps| ==> ps[i].n != n
    ensures LoadPages(s, ps).cur == s.cur && Leaf(LoadPages(s, ps).mem, s.cur, n) == Leaf(s.mem, s.cur, n)
    decreases |ps|
  {
    hide LoadPage; hide CanMapFresh; hide Inv; hide Leaf; hide Free; hide FindFree; hide Accounted;
    if ps != [] {
      LoadPageFacts(s, ps[0]);
      LoadPagesElsewhere(LoadPage(s, ps[0]), ps[1..], n);
    }
  }

  /** Of several pages with one number the last decides. */
  predicate LastOf(ps: seq<Page>, i: nat) {
    i < |ps| && forall j :: i < j < |ps| ==> ps[j].n != ps[i].n
  }

  lemma {:induction false} LoadPagesGrant(s: Sys, ps: seq<Page>, i: nat)
    requires Inv(s) && LoadFits(s, ps) && LastOf(ps, i)
    ensures Grants(Leaf(LoadPages(s, ps).mem, s.cur, ps[i].n), ps[i])
    decreases |ps|
  {
    hide LoadPage; hide CanMapFresh; hide Inv; hide Leaf; hide Free; hide FindFree; hide Accounted;
    var s1 := LoadPage(s, ps[0]);
    LoadPageFacts(s, ps[0]);
    if i == 0 {
      forall j | 0 <= j < |ps[1..]| ensures ps[1..][j].n != ps[0].n {
        assert ps[1..][j] == ps[j + 1];
      }
      LoadPagesElsewhere(s1, ps[1..], ps[0].n);
    } else {
      assert ps[1..][i - 1] == ps[i];
      assert forall j :: i - 1 < j < |ps[1..]| ==> ps[1..][j] == ps[j + 1];
      LoadPagesGrant(s1, ps[1..], i - 1);
    }
  }

  /** A loaded program may use each of its pages exactly as its segment says: present, the user's,
      not copy-on-write, and writable and executable as asked.  Where segments share a page, the last
      one decides. */
  lemma LoadGrants(s: Sys, ps: seq<Page>, i: nat)
    requires Inv(s) && CanLoad(s, ps) && LastOf(ps, i)
    ensures var (s', c) := Load(s, ps); var e := Leaf(s'.mem, c, ps[i].n);
            e.p && e.u && !e.cow && e.w == ps[i].w && e.xd == ps[i].xd
  {
    hide *;
    LoadUnfold(s, ps);
    var (s1, c) := CreateUserMemory(s);
    SameButCur(s1, c);
    LoadInRange(s1.(cur := c), ps);
    LastIsOne(ps, i);
    LoadPagesGrant(s1.(cur := c), ps, i);
    LoadPagesAccount(s1.(cur := c), ps);
    var s2 := LoadPages(s1.(cur := c), ps);
    SameRoot(s1.(cur := c), s2, c);
    MallocTimesSafe(s2, KERNEL_STACK_PAGES);
    LeafKept(s2, MallocTimes(s2, KERNEL_STACK_PAGES), c, ps[i].n);
    GrantedFields(Leaf(s2.mem, c, ps[i].n), ps[i]);
  }

  lemma LoadUnfold(s: Sys, ps: seq<Page>)
    requires Inv(s) && CanLoad(s, ps)
    ensures var (s1, c) := CreateUserMemory(s);
            && Inv(s1) && IsRoot(s1.role, c)
            && LoadFits(s1.(cur := c), ps) && MallocFits(LoadPages(s1.(cur := c), ps), KERNEL_STACK_PAGES)
            && Load(s, ps) == (MallocTimes(LoadPages(s1.(cur := c), ps), KERNEL_STACK_PAGES).(cur := s.cur), c)
  {
    hide CreateUserMemory; hide LoadPages; hide LoadFits; hide MallocTimes; hide MallocFits; hide CanMalloc; hide Inv; hide Leaf;
    CreateFacts(s);
  }

  lemma SameRoot(s: Sys, s': Sys, r: nat)
    requires SameRootSet(s, s') && IsRoot(s.role, r)
    ensures IsRoot(s'.role, r)
  {
  }

  lemma LeafKept(s: Sys, s': Sys, r: nat, n: nat)
    requires UserLeavesKept(s, s') && IsRoot(s.role, r) && n < USER_PAGES
    ensures Leaf(s'.mem, r, n) == Leaf(s.mem, r, n)
  {
    hide Leaf;
  }

  lemma GrantedFields(e: Word, p: Page)
    requires Grants(e, p)
    ensures e.p && e.u && !e.cow && e.w == p.w && e.xd == p.xd
  {
  }

  lemma LastIsOne(ps: seq<Page>, i: nat)
    requires LastOf(ps, i)
    ensures i < |ps|
  {
  }

  /** In particular its stack page, which no segment replaces: the program can read, write and
      execute it. */
  lemma StackGranted(s: Sys, segments: seq<Page>)
    requires Inv(s) && CanLoad(s, Program(segments)) && forall i :: 0 <= i < |segments| ==> segments[i].n != 0x7_FFF0
    ensures var (s', c) := Load(s, Program(segments)); var e := Leaf(s'.mem, c, 0x7_FFF0);
            e.p && e.u && e.w && !e.xd && !e.cow
  {
    hide Load; hide CanLoad; hide Inv; hide Leaf;
    LoadGrants(s, Program(segments), 0);
  }

  // ---------------------------------------------------------------------------------
  // Whole runs from boot
  // ---------------------------------------------------------------------------------

  /** The kernel starts in a safe state, with exact counts, that maps no user page and has every
      frame in the direct map. */
  lemma BootOk(frames: nat, kpages: nat, top: nat)
    requires BootFits(frames, kpages, top)
    ensures var w := World(Booted(frames, kpages, top), map[]);
            WorldInv(w) && Strict(w.sys) && Exact(w.sys) && forall f: nat :: f < frames ==> DirectMapped(w.sys, f)
  {
    var s := Booted(frames, kpages, top);
    BootInv(frames, kpages, top);
    BootRoot(frames);
    forall n: nat | n < USER_PAGES ensures Leaf(s.mem, ROOT, n) == ZERO {
      EmptyUserHalf(s.mem, ROOT, n);
    }
    forall f: nat | f < frames ensures DirectMapped(s, f) {
      BootDirectMapped(frames, kpages, top, f);
    }
    assert forall f :: 0 <= f < |s.info| ==> s.info[f].refcount == 0;
    hide Leaf; hide Inv; hide DirectMapped; hide Booted;
    forall f ensures Mappers(s, f) == {} {
    }
  }

  datatype Event = Start(segments: seq<Page>) | Do(step: Step) | End(r: nat)

  /** `counted` chooses the machine whose copies are counted. */
  ghost function Happen(w: World, ev: Event, counted: bool): World {
    match ev
    case Start(segments) =>
      var (s, c) := Load(w.sys, Program(segments));
      World(s, w.procs[c := RegionOf(segments)])
    case Do(st) => if counted then ExecCounted(w, st) else Exec(w, st)
    case End(r) => World(Exit(w.sys, r, ROOT), w.procs - {r})
  }

  ghost predicate CanHappen(w: World, ev: Event, counted: bool) {
    match ev
    case Start(segments) => CanLoad(w.sys, Program(segments))
    case Do(st) => if counted then Possible(w, st) else Enabled(w, st)
    case End(r) => r in w.procs && CanExit(w.sys, r, ROOT)
  }

  ghost function Run(w: World, evs: seq<Event>, counted: bool): World
    decreases |evs|
  {
    if evs == [] then w else Run(Happen(w, evs[0], counted), evs[1..], counted)
  }

  ghost predicate CanRun(w: World, evs: seq<Event>, counted: bool)
    decreases |evs|
  {
    evs == [] || (CanHappen(w, evs[0], counted) && CanRun(Happen(w, evs[0], counted), evs[1..], counted))
  }

  /** In the eager machine a program started is a new image with the program's pages, and a
      process that ends is its image gone. */
  ghost predicate EagerEvent(e: Eager, ev: Event, e': Eager) {
    match ev
    case Start(segments) =>
      exists c: nat, v: Image :: c !in e.images && v.Keys == Numbers(Program(segments)) &&
        e' == Eager(e.images[c := v], e.procs[c := RegionOf(segments)])
    case Do(st) => EagerStep(e, st, e')
    case End(r) => r in e.images && e' == Eager(e.images - {r}, e.procs - {r})
  }

  ghost predicate EagerHistory(e: Eager, evs: seq<Event>, e': Eager)
    decreases |evs|
  {
    if evs == [] then e' == e
    else exists mid :: EagerEvent(e, evs[0], mid) && EagerHistory(mid, evs[1..], e')
  }

  /** The event leaves no reference without a mapping: no segment and no fault maps over a page,
      and no process ends that has any. */
  ghost predicate GentleEvent(w: World, ev: Event) {
    match ev
    case Start(segments) => DistinctPages(Program(segments))
    case Do(st) => Gentle(w, st)
    case End(r) => MapsNothing(w.sys, r)
  }

  ghost predicate AllGentleEvents(w: World, evs: seq<Event>)
    decreases |evs|
  {
    evs == [] || (GentleEvent(w, evs[0]) && AllGentleEvents(Happen(w, evs[0], true), evs[1..]))
  }

  ghost predicate Good(w: World, counted: bool) {
    WorldInv(w) && (counted ==> Strict(w.sys))
  }

  lemma StartRefines(w: World, segments: seq<Page>)
    requires WorldInv(w) && CanLoad(w.sys, Program(segments))
    ensures var w' := Happen(w, Start(segments), false);
            WorldInv(w') && EagerEvent(Observed(w), Start(segments), Observed(w'))
  {
    hide Load; hide CanLoad; hide Safe; hide Views; hide Numbers; hide StacksMapped;
    var ps := Program(segments);
    LoadSafe(w.sys, ps);
    var (s, c) := Load(w.sys, ps);
    var v: Image :| v.Keys == Numbers(ps) && Views(s) == Views(w.sys)[c := v];
    StackLoaded(Observed(w), c, v, segments);
  }

  lemma StackLoaded(e: Eager, c: nat, v: Image, segments: seq<Page>)
    requires StacksMapped(e) && v.Keys == Numbers(Program(segments))
    ensures StacksMapped(Eager(e.images[c := v], e.procs[c := RegionOf(segments)]))
  {
    assert Program(segments)[0].n in Numbers(Program(segments));
    assert StackIn(v, RegionOf(segments));
  }

  lemma EndRefines(w: World, r: nat)
    requires WorldInv(w) && r in w.procs && CanExit(w.sys, r, ROOT)
    ensures var w' := Happen(w, End(r), false); WorldInv(w') && EagerEvent(Observed(w), End(r), Observed(w'))
  {
    hide Exit; hide CanExit; hide Safe; hide Views; hide StackIn;
    ExitSafe(w.sys, r, ROOT);
  }

  lemma HappenAccount(w: World, ev: Event)
    requires WorldInv(w) && CanHappen(w, ev, true)
    ensures Accounted(w.sys, Happen(w, ev, true).sys, GentleEvent(w, ev))
  {
    assert Inv(w.sys);
    hide Load; hide CanLoad; hide Exit; hide CanExit; hide ExecCounted; hide Possible; hide Accounted; hide WorldInv;
    hide DistinctPages; hide Gentle; hide MapsNothing; hide Inv;
    match ev
    case Start(segments) => LoadAccount(w.sys, Program(segments));
    case Do(st) => CountedStepAccount(w, st);
    case End(r) => ExitAccount(w.sys, r, ROOT);
  }

  lemma HappenRefines(w: World, ev: Event, counted: bool)
    requires Good(w, counted) && CanHappen(w, ev, counted)
    ensures var w' := Happen(w, ev, counted);
            Good(w', counted) && EagerEvent(Observed(w), ev, Observed(w'))
  {
    hide Load; hide CanLoad; hide Exit; hide CanExit; hide ExecCounted; hide Exec; hide Possible; hide Enabled;
    hide WorldInv; hide Accounted; hide Strict; hide EagerStep; hide Observed; hide GentleEvent;
    if counted {
      HappenAccount(w, ev);
      AccountedStrict(w.sys, Happen(w, ev, true).sys, GentleEvent(w, ev));
    }
    match ev
    case Start(segments) => StartRefines(w, segments);
    case Do(st) =>
      if counted {
        CountedStepRefines(w, st);
      } else {
        StepRefines(w, st);
      }
    case End(r) => EndRefines(w, r);
  }

  lemma {:induction false} HistoryRefines(w: World, evs: seq<Event>, counted: bool)
    requires Good(w, counted) && CanRun(w, evs, counted)
    ensures var w' := Run(w, evs, counted);
            && Good(w', counted) && EagerHistory(Observed(w), evs, Observed(w'))
            && (counted ==> Accounted(w.sys, w'.sys, AllGentleEvents(w, evs)))
    decreases |evs|
  {
    hide WorldInv; hide Strict; hide CanHappen; hide Happen; hide EagerEvent; hide Observed; hide Accounted; hide GentleEvent;
    hide Mappers;
    if evs == [] {
      SameAccount(w.sys, w.sys);
    } else {
      var w1 := Happen(w, evs[0], counted);
      HappenRefines(w, evs[0], counted);
      HistoryRefines(w1, evs[1..], counted);
      if counted {
        HappenAccount(w, evs[0]);
        AccountedJoin(w.sys, w1.sys, Run(w1, evs[1..], true).sys, GentleEvent(w, evs[0]), AllGentleEvents(w1, evs[1..]));
      }
    }
  }

  /** From boot, over every interleaving of programs loaded, writes, faults, forks, kernel
      allocations and processes ending that memory lasts for: the machine is safe, its stacks
      contiguous, and its processes see a history of the eager machine, which starts without any.
      The machine as written needs its forks to share counted pages; the one that counts its
      copies does not, and its counts are exact in the end if and only if no segment and no fault
      has mapped over a page and no process has ended with pages mapped. */
  lemma BootedRunRefines(frames: nat, kpages: nat, top: nat, evs: seq<Event>, counted: bool)
    requires BootFits(frames, kpages, top) && CanRun(World(Booted(frames, kpages, top), map[]), evs, counted)
    ensures var w := World(Booted(frames, kpages, top), map[]); var w' := Run(w, evs, counted);
            && WorldInv(w') && (counted ==> Strict(w'.sys))
            && EagerHistory(Observed(w), evs, Observed(w'))
            && (counted ==> (Exact(w'.sys) <==> AllGentleEvents(w, evs)))
  {
    BootOk(frames, kpages, top);
    hide WorldInv; hide Strict; hide Run; hide CanRun; hide EagerHistory; hide Observed; hide Booted; hide Exact; hide Accounted;
    hide AllGentleEvents; hide DirectMapped;
    var w := World(Booted(frames, kpages, top), map[]);
    HistoryRefines(w, evs, counted);
    if counted {
      AccountedExact(w.sys, Run(w, evs, true).sys, AllGentleEvents(w, evs));
    }
  }
}
