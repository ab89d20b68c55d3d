/**
  Which accesses the kernel serves and which it kills for: mem_access_ok in
  src/kernel/drivers/Userland/Tasks.c and the decisions of HandlePageFault in
  src/kernel/drivers/ErrorHandling/Exceptions.c, in terms of addresses and of a process's ranges.
 */
module Access {
  import opened PageTables
  import opened AddressSpace
  import opened CopyOnWrite
  import opened Fork
  import opened MemoryRuns
  import opened Faults
  import opened CountedCopies
  import opened Exits
  import opened Boot
  import opened Launch
  import MemoryLimits

  // ---------------------------------------------------------------------------------
  // Addresses
  // ---------------------------------------------------------------------------------

  /** A stack as MemoryData describes it: at least one page, none below page 0. */
  predicate PlainStack(g: Region) {
    1 <= g.stackPages <= g.stackBase + 1 && g.stackBase < USER_PAGES
  }

  /** Strictly between the first byte of the code pages and their end. */
  predicate InCode(g: Region, addr: nat) {
    g.base * 0x1000 < addr < (g.base + g.pages) * 0x1000
  }

  /** In the stack's pages, or past the first byte of the page below them.  When the stack reaches
      page 0 there is no such page, and its lower bound wraps. */
  predicate InStack(g: Region, addr: nat) {
    g.stackPages <= g.stackBase && (g.stackBase - g.stackPages) * 0x1000 < addr < (g.stackBase + 1) * 0x1000
  }

  /** At or above the fourth page below the stack, when there are as many. */
  predicate NearStack(g: Region, addr: nat) {
    g.stackPages + 3 <= g.stackBase && (g.stackBase - g.stackPages - 3) * 0x1000 <= addr
  }

  /** A fault kills its process exactly when the address is in none of the three. */
  lemma KillsIff(g: Region, addr: nat)
    requires PlainStack(g) && addr < USER_PAGES * 0x1000
    ensures Kills(g, addr) <==> !InCode(g, addr) && !InStack(g, addr) && !NearStack(g, addr)
  {
    assert addr == addr / 0x1000 * 0x1000 + addr % 0x1000;
  }

  lemma PlainStackOf(w: World, r: nat)
    requires WorldInv(w) && r in w.procs
    ensures PlainStack(w.procs[r])
  {
    hide Safe; hide Leaf; hide View;
    assert r in Observed(w).procs;
    StackInHalf(w.sys, r, w.procs[r]);
  }

  /** The machine serves a fault exactly when memory lasts for it and the address is one of those. */
  lemma FaultRefusedIff(w: World, r: nat, addr: nat)
    requires WorldInv(w) && r in w.procs && addr < USER_PAGES * 0x1000
    ensures var g := w.procs[r]; var served := InCode(g, addr) || InStack(g, addr) || NearStack(g, addr);
            && (Enabled(w, Fault(r, addr)) <==> served && CanFault(w.sys, r, g, addr / 0x1000))
            && (Enabled(w, Cow(r, addr)) <==> served && CanResolve(w.sys.(cur := r), addr / 0x1000))
  {
    PlainStackOf(w, r);
    KillsIff(w.procs[r], addr);
    hide Kills; hide CanFault; hide CanResolve; hide WorldInv; hide InCode; hide InStack; hide NearStack;
  }

  /** The address lies in a page of the process's ranges. */
  predicate OwnAddress(g: Region, addr: nat) {
    || g.base <= addr / 0x1000 < g.base + g.pages
    || g.stackBase - g.stackPages < addr / 0x1000 <= g.stackBase
  }

  /** A process may be killed for an access to its own pages: exactly for one to the first byte of its
      code, unless that is near or in its stack. */
  lemma OwnAddressKilledIff(g: Region, addr: nat)
    requires PlainStack(g) && g.stackPages <= g.stackBase && OwnAddress(g, addr) && addr < USER_PAGES * 0x1000
    ensures Kills(g, addr) <==> addr == g.base * 0x1000 && !InStack(g, addr) && !NearStack(g, addr)
  {
    KillsIff(g, addr);
    hide Kills;
    assert addr == addr / 0x1000 * 0x1000 + addr % 0x1000;
  }

  /** After fork the first byte of the code can be written neither by the parent nor by the child: the
      page is copy-on-write in both, and the fault kills.  The byte after it can, while memory lasts. */
  lemma FirstByteAfterFork(w: World, r: nat)
    requires WorldInv(w) && Enabled(w, Spawn(r)) && w.procs[r].pages > 0
    requires w.procs[r].base + 4 + w.procs[r].stackPages <= w.procs[r].stackBase
    ensures var g := w.procs[r]; var (s, c) := Fork.Fork(w.sys, r, g); var w' := Exec(w, Spawn(r)); var first := g.base * 0x1000;
            && w'.sys == s && w'.procs == w.procs[c := g] && c != r
            && forall p :: p == r || p == c ==>
                 && Leaf(s.mem, p, g.base).p && Leaf(s.mem, p, g.base).cow && !Leaf(s.mem, p, g.base).w
                 && !Enabled(w', Cow(p, first)) && !Enabled(w', Fault(p, first))
                 && (Enabled(w', Cow(p, first + 1)) <==> CanResolve(s.(cur := p), g.base))
  {
    hide *;
    SpawnWorld(w, r);
    FirstPageShared(w.sys, r, w.procs[r]);
    FirstByteRefused(Exec(w, Spawn(r)), r);
    FirstByteRefused(Exec(w, Spawn(r)), Fork.Fork(w.sys, r, w.procs[r]).1);
  }

  lemma SpawnWorld(w: World, r: nat)
    requires WorldInv(w) && Enabled(w, Spawn(r))
    ensures var (s, c) := Fork.Fork(w.sys, r, w.procs[r]); var w' := Exec(w, Spawn(r));
            && r in w.procs && WorldInv(w') && w'.sys == s && w'.procs == w.procs[c := w.procs[r]]
            && Safe(w.sys) && CanFork(w.sys, r, w.procs[r]) && PlainStack(w.procs[r])
  {
    StepRefines(w, Spawn(r));
    PlainStackOf(w, r);
    hide EagerStep; hide Fork.Fork; hide CanFork; hide CountedPages; hide Safe; hide StacksMapped; hide PlainStack;
  }

  /** The first byte of code well below the stack is out of bounds, the next one is not. */
  lemma FirstByteOut(g: Region)
    requires g.pages > 0 && g.base + 4 + g.stackPages <= g.stackBase
    ensures var first := g.base * 0x1000;
            && !InCode(g, first) && !InStack(g, first) && !NearStack(g, first)
            && InCode(g, first + 1) && (first + 1) / 0x1000 == g.base
  {
  }

  lemma FirstByteRefused(w: World, p: nat)
    requires WorldInv(w) && p in w.procs && w.procs[p].pages > 0 && w.procs[p].base < USER_PAGES
    requires w.procs[p].base + 4 + w.procs[p].stackPages <= w.procs[p].stackBase
    ensures var g := w.procs[p]; var first := g.base * 0x1000;
            && !Enabled(w, Cow(p, first)) && !Enabled(w, Fault(p, first))
            && (Enabled(w, Cow(p, first + 1)) <==> CanResolve(w.sys.(cur := p), g.base))
  {
    hide *;
    FirstByteOut(w.procs[p]);
    FaultRefusedIff(w, p, w.procs[p].base * 0x1000);
    FaultRefusedIff(w, p, w.procs[p].base * 0x1000 + 1);
  }

  lemma FirstPageShared(s: Sys, r: nat, g: Region)
    requires Safe(s) && CanFork(s, r, g) && g.pages > 0 && PlainStack(g)
    ensures var (s', c) := Fork.Fork(s, r, g);
            && g.base < USER_PAGES && c != r
            && forall p :: p == r || p == c ==> Leaf(s'.mem, p, g.base).p && Leaf(s'.mem, p, g.base).cow && !Leaf(s'.mem, p, g.base).w
  {
    PagesOfIff(g, g.base);
    assert AllMapped(s, r, PagesOf(g)) && IsRoot(s.role, r);
    hide Leaf; hide Fork.Fork; hide CanFork; hide PagesOf; hide Counted; hide Exclusive; hide Inv;
    assert g.base < USER_PAGES && Leaf(s.mem, r, g.base).p;
    ForkLeaf(s, r, g, r, g.base);
    ForkLeaf(s, r, g, Fork.Fork(s, r, g).1, g.base);
  }

  /** fork forgets what a page was not to be used for: whatever its permissions were, once the parent
      or the child resolves it, that process may write it, and the child may execute it. */
  lemma ForkForgetsPermissions(s: Sys, r: nat, g: Region, n: nat, p: nat)
    requires Safe(s) && CanFork(s, r, g) && CountedPages(s, r, PagesOf(g)) && n in PagesOf(g)
    requires var (s', c) := Fork.Fork(s, r, g); (p == r || p == c) && CanResolve(s'.(cur := p), n)
    ensures var (s', c) := Fork.Fork(s, r, g); var e := Leaf(CowFault(s'.(cur := p), n).mem, p, n);
            e.p && e.w && e.u == Leaf(s.mem, r, n).u && (if p == c then !e.xd else e.xd == Leaf(s.mem, r, n).xd)
  {
    hide *;
    var (s', c) := Fork.Fork(s, r, g);
    ForkedRoots(s, r, g, n);
    ForkLeaf(s, r, g, p, n);
    ForkSafe(s, r, g);
    SafeRoot(s', p);
    SameButCur(s', p);
    CowFaultSafe(s'.(cur := p), n);
  }

  lemma ForkedRoots(s: Sys, r: nat, g: Region, n: nat)
    requires Safe(s) && CanFork(s, r, g) && n in PagesOf(g)
    ensures Inv(s) && IsRoot(s.role, r) && n < USER_PAGES && !IsRoot(s.role, Fork.Fork(s, r, g).1)
    ensures r != Fork.Fork(s, r, g).1
  {
    assert AllMapped(s, r, PagesOf(g));
    hide Leaf; hide Fork.Fork; hide CanFork; hide PagesOf; hide Counted; hide Exclusive; hide Inv;
    ForkLeaf(s, r, g, r, n);
  }

  lemma SafeRoot(s: Sys, p: nat)
    requires Safe(s) && IsRoot(s.role, p)
    ensures Inv(s) && s.(cur := p).cur == p
  {
  }

  // ---------------------------------------------------------------------------------
  // Where a process's pages are
  // ---------------------------------------------------------------------------------

  /** A page of the code range, or one that lies at most four below the stack. */
  predicate InReach(g: Region, n: nat) {
    g.base <= n < g.base + g.pages || n >= g.stackBase - g.stackPages - 3
  }

  /** Every page of every process is where its ranges say. */
  ghost predicate Lawful(e: Eager) {
    forall r :: r in e.procs && r in e.images ==> forall n :: n in e.images[r] ==> InReach(e.procs[r], n)
  }

  /** A fault or a copy only happens at an address that is served. */
  predicate Served(e: Eager, st: Step) {
    match st
    case Fault(r, addr) =>
      && r in e.procs && PlainStack(e.procs[r]) && addr < USER_PAGES * 0x1000
      && (InCode(e.procs[r], addr) || InStack(e.procs[r], addr) || NearStack(e.procs[r], addr))
      && AtOrBelow(e.procs[r], addr / 0x1000)
    case _ => true
  }

  lemma StepServed(w: World, st: Step)
    requires WorldInv(w) && Enabled(w, st)
    ensures Served(Observed(w), st)
  {
    if st.Fault? {
      var n := st.addr / 0x1000;
      PlainStackOf(w, st.r);
      FaultBelow(w.sys, st.r, w.procs[st.r], n);
      assert n < USER_PAGES;
      FaultRefusedIff(w, st.r, st.addr);
      hide WorldInv; hide Views; hide CanFault; hide AtOrBelow;
    }
  }

  /** The pages of a fault are in reach of the ranges it leaves. */
  lemma FaultInReach(g: Region, g': Region, addr: nat, n: nat)
    requires PlainStack(g) && addr < USER_PAGES * 0x1000 && (InCode(g, addr) || InStack(g, addr) || NearStack(g, addr))
    requires AtOrBelow(g, addr / 0x1000)
    requires g' == if InStackWindow(g, addr / 0x1000) then g.(stackPages := g.stackPages + StackGap(g, addr / 0x1000))
                   else g.(pages := g.pages + 1)
    ensures InReach(g, n) ==> InReach(g', n)
    ensures addr / 0x1000 <= n < addr / 0x1000 + FaultSize(g, addr / 0x1000) ==> InReach(g', n)
  {
    assert addr == addr / 0x1000 * 0x1000 + addr % 0x1000;
  }

  /** Every step of the eager machine at an address that is served keeps pages where ranges say. */
  lemma StepLawful(e: Eager, st: Step, e': Eager)
    requires EagerStep(e, st, e') && Served(e, st) && Lawful(e)
    ensures Lawful(e')
  {
    hide InReach; hide InCode; hide InStack; hide NearStack; hide AtOrBelow; hide InStackWindow; hide StackGap; hide FaultSize;
    hide PagesOf; hide CopyPages; hide RangeFree; hide PlainStack;
    match st
    case Write(r, n, i, v) =>
    case Cow(r, addr) =>
    case KernelPage =>
    case Fault(r, addr) =>
      forall n | n in e'.images[r] ensures InReach(e'.procs[r], n) {
        FaultInReach(e.procs[r], e'.procs[r], addr, n);
        assert n in e.images[r] || addr / 0x1000 <= n < addr / 0x1000 + FaultSize(e.procs[r], addr / 0x1000);
      }
    case Spawn(r) =>
      var c: nat :| c !in e.images &&
        e' == Eager(e.images[c := CopyPages(map[], e.images[r], PagesOf(e.procs[r]))], e.procs[c := e.procs[r]]);
      forall n | n in e'.images[c] ensures InReach(e'.procs[c], n) {
        CopyPagesContent(map[], e.images[r], PagesOf(e.procs[r]), n);
      }
  }

  /** Over any run: a page that a process has got since lies in its ranges, or at most four pages below
      its stack. */
  lemma {:induction false} RunLawful(w: World, steps: seq<Step>)
    requires WorldInv(w) && AllEnabled(w, steps) && Lawful(Observed(w))
    ensures Lawful(Observed(ExecAll(w, steps)))
    decreases |steps|
  {
    hide WorldInv; hide Enabled; hide Exec; hide EagerStep; hide Observed; hide Lawful; hide Served;
    if steps != [] {
      StepRefines(w, steps[0]);
      StepServed(w, steps[0]);
      StepLawful(Observed(w), steps[0], Observed(Exec(w, steps[0])));
      RunLawful(Exec(w, steps[0]), steps[1..]);
    }
  }

  // ---------------------------------------------------------------------------------
  // Whole runs from boot
  // ---------------------------------------------------------------------------------

  /** The segments lie in the range that MemoryData gives the program: as many pages as they have,
      from the first segment's on. */
  predicate SegmentsFit(segments: seq<Page>) {
    forall i :: 0 <= i < |segments| ==> InReach(RegionOf(segments), segments[i].n)
  }

  lemma StartLawful(e: Eager, segments: seq<Page>, e': Eager)
    requires EagerEvent(e, Start(segments), e') && Lawful(e) && SegmentsFit(segments)
    ensures Lawful(e')
  {
    var c: nat, v: Image :| c !in e.images && v.Keys == Numbers(Program(segments)) &&
      e' == Eager(e.images[c := v], e.procs[c := RegionOf(segments)]);
    forall n | n in v ensures InReach(RegionOf(segments), n) {
      var i :| 0 <= i < |Program(segments)| && Program(segments)[i].n == n;
      assert i > 0 ==> segments[i - 1].n == n;
    }
    hide InReach; hide Numbers; hide SegmentsFit;
  }

  lemma EventLawful(w: World, ev: Event, counted: bool)
    requires Good(w, counted) && CanHappen(w, ev, counted) && Lawful(Observed(w))
    requires ev.Start? ==> SegmentsFit(ev.segments)
    ensures Lawful(Observed(Happen(w, ev, counted)))
  {
    HappenRefines(w, ev, counted);
    hide WorldInv; hide Strict; hide Happen; hide EagerStep; hide Observed; hide Lawful; hide CanLoad; hide CanExit; hide Served;
    match ev
    case Start(segments) => StartLawful(Observed(w), segments, Observed(Happen(w, ev, counted)));
    case Do(st) =>
      if st.Fault? {
        PossibleFault(w, st);
        StepServed(w, st);
      } else {
        NoFaultServed(Observed(w), st);
      }
      StepLawful(Observed(w), st, Observed(Happen(w, ev, counted)));
    case End(r) => EndLawful(Observed(w), r, Observed(Happen(w, ev, counted)));
  }

  lemma PossibleFault(w: World, st: Step)
    requires st.Fault? && (Possible(w, st) || Enabled(w, st))
    ensures Enabled(w, st)
  {
    hide Enabled;
  }

  lemma NoFaultServed(e: Eager, st: Step)
    requires !st.Fault?
    ensures Served(e, st)
  {
  }

  lemma EndLawful(e: Eager, r: nat, e': Eager)
    requires EagerEvent(e, End(r), e') && Lawful(e)
    ensures Lawful(e')
  {
    hide InReach;
  }

  lemma {:induction false} HistoryLawful(w: World, evs: seq<Event>, counted: bool)
    requires Good(w, counted) && CanRun(w, evs, counted) && Lawful(Observed(w))
    requires forall ev :: ev in evs && ev.Start? ==> SegmentsFit(ev.segments)
    ensures Lawful(Observed(Run(w, evs, counted)))
    decreases |evs|
  {
    hide Good; hide CanHappen; hide Happen; hide Observed; hide Lawful; hide SegmentsFit; hide EagerEvent;
    if evs != [] {
      assert evs[0] in evs;
      HappenRefines(w, evs[0], counted);
      EventLawful(w, evs[0], counted);
      HistoryLawful(Happen(w, evs[0], counted), evs[1..], counted);
    }
  }

  /** From boot, over every run of programs whose segments fit their ranges, every page of every
      process lies in its code range or at most four pages below its stack. */
  lemma BootedRunLawful(frames: nat, kpages: nat, top: nat, evs: seq<Event>, counted: bool)
    requires BootFits(frames, kpages, top) && CanRun(World(Booted(frames, kpages, top), map[]), evs, counted)
    requires forall ev :: ev in evs && ev.Start? ==> SegmentsFit(ev.segments)
    ensures var w := Run(World(Booted(frames, kpages, top), map[]), evs, counted);
            forall r, n :: r in w.procs && r in Views(w.sys) && n in Views(w.sys)[r] ==> InReach(w.procs[r], n)
  {
    BootOk(frames, kpages, top);
    var w := World(Booted(frames, kpages, top), map[]);
    ExactIsStrict(w.sys);
    assert Lawful(Observed(w));
    hide WorldInv; hide Strict; hide Run; hide CanRun; hide Booted; hide Exact; hide InReach; hide SegmentsFit; hide Views;
    HistoryLawful(w, evs, counted);
  }

  /** A program that forks right after it was loaded has all its pages in the child if and only if its
      segments fit: pages past a gap between segments stay behind. */
  lemma ForkOfLoadedIff(v: Image, segments: seq<Page>)
    requires v.Keys == Numbers(Program(segments))
    ensures CopyPages(map[], v, PagesOf(RegionOf(segments))) == v <==>
              forall i :: 0 <= i < |segments| ==>
                || segments[i].n == 0x7_FFF0
                || segments[0].n <= segments[i].n < segments[0].n + |segments|
  {
    var g := RegionOf(segments);
    CopyAllIff(v, PagesOf(g));
    forall n: nat ensures n in PagesOf(g) <==> n == 0x7_FFF0 || g.base <= n < g.base + g.pages {
      PagesOfIff(g, n);
    }
    hide PagesOf; hide CopyPages;
    NumbersOf(segments);
    hide Numbers;
    if forall n :: n in v ==> n in PagesOf(g) {
      forall i | 0 <= i < |segments| ensures segments[i].n == 0x7_FFF0 || segments[0].n <= segments[i].n < segments[0].n + |segments| {
        assert segments[i].n in v;
      }
    }
  }

  /** Copying loses nothing exactly when it is asked for every page. */
  lemma CopyAllIff(v: Image, pages: seq<nat>)
    ensures CopyPages(map[], v, pages) == v <==> forall n :: n in v ==> n in pages
  {
    var copy: Image := CopyPages(map[], v, pages);
    forall n: nat ensures (n in copy <==> n in v && n in pages) && (n in copy ==> copy[n] == v[n]) {
      CopyPagesContent(map[], v, pages, n);
    }
    hide CopyPages;
  }

  lemma NumbersOf(segments: seq<Page>)
    ensures forall n: nat :: n in Numbers(Program(segments)) <==> n == 0x7_FFF0 || exists i :: 0 <= i < |segments| && segments[i].n == n
  {
    var ps := Program(segments);
    forall n: nat ensures n in Numbers(ps) <==> n == 0x7_FFF0 || exists i :: 0 <= i < |segments| && segments[i].n == n {
      assert ps[0].n == 0x7_FFF0;
      assert forall i :: 0 <= i < |segments| ==> ps[i + 1] == segments[i];
      if n in Numbers(ps) && n != 0x7_FFF0 {
        var i :| 0 <= i < |ps| && ps[i].n == n;
        assert segments[i - 1].n == n;
      }
      if i :| 0 <= i < |segments| && segments[i].n == n {
        assert ps[i + 1].n == n;
      }
    }
  }

  // ---------------------------------------------------------------------------------
  // What a fault that is served maps
  // ---------------------------------------------------------------------------------

  /** The pages of the stack loop, as a list to be loaded. */
  function GrownPages(n: nat, k: nat): (ps: seq<Page>)
    ensures |ps| == k && forall i :: 0 <= i < k ==> ps[i] == Page(n + i, true, true)
  {
    seq(k, i requires 0 <= i => Page(n + i, true, true))
  }

  lemma {:induction false} GrowIsLoad(s: Sys, n: nat, k: nat)
    requires GrowFits(s, n, k)
    ensures LoadFits(s, GrownPages(n, k)) && LoadPages(s, GrownPages(n, k)) == GrowStack(s, n, k)
    decreases k
  {
    hide Alloc; hide CanMapFresh; hide FindFree;
    if k > 0 {
      assert GrownPages(n, k)[1..] == GrownPages(n + 1, k - 1);
      GrowIsLoad(MapFresh(s, n, true), n + 1, k - 1);
    }
  }

  /** The process may read and write page n of r, and execute it if `x`. */
  ghost predicate Usable(s: Sys, r: nat, n: nat, x: bool) {
    var e := Leaf(s.mem, r, n); e.p && e.u && e.w && !e.cow && e.xd == !x
  }

  /** In s' the k pages of r from n on are usable; its other user pages are as they were. */
  ghost predicate MapsRange(s: Sys, s': Sys, r: nat, n: nat, k: nat, x: bool) {
    && (forall i: nat :: n <= i < n + k ==> Usable(s', r, i, x))
    && (forall i: nat :: i < USER_PAGES && !(n <= i < n + k) ==> Leaf(s'.mem, r, i) == Leaf(s.mem, r, i))
  }

  lemma GrowMaps(s: Sys, n: nat, k: nat)
    requires Inv(s) && GrowFits(s, n, k) && n + k <= USER_PAGES
    ensures MapsRange(s, GrowStack(s, n, k), s.cur, n, k, false)
  {
    hide Inv; hide Leaf; hide GrowFits; hide LoadFits; hide LoadPages; hide GrowStack;
    GrowIsLoad(s, n, k);
    var ps := GrownPages(n, k);
    forall i: nat | n <= i < n + k ensures Usable(GrowStack(s, n, k), s.cur, i, false) {
      LoadPagesGrant(s, ps, i - n);
    }
    forall i: nat | i < USER_PAGES && !(n <= i < n + k) ensures Leaf(GrowStack(s, n, k).mem, s.cur, i) == Leaf(s.mem, s.cur, i) {
      LoadPagesElsewhere(s, ps, i);
    }
  }

  lemma OneMaps(s: Sys, n: nat)
    requires Inv(s) && CanMapFresh(s, n)
    ensures MapsRange(s, MapFresh(s, n, false), s.cur, n, 1, true)
  {
    hide Inv; hide Leaf; hide Alloc; hide CanMapFresh; hide FindFree; hide Accounted; hide Free;
    assert MapFresh(s, n, false) == LoadPage(s, Page(n, true, false));
    LoadPageFacts(s, Page(n, true, false));
  }

  /** A fault on one of the two pages below the stack maps every page from there up to the stack, for
      reading and writing, and makes the stack that much longer.  A fault anywhere else, but in the
      stack, maps the one page, for executing too, and counts it among the code pages.  The process's
      other pages are as they were. */
  lemma FaultServes(s: Sys, r: nat, g: Region, n: nat)
    requires Inv(s) && CanFault(s, r, g, n) && PlainStack(g)
    ensures var (s', g') := DemandFault(s, r, g, n); var low := g.stackBase + 1 - g.stackPages;
            var grows := low >= 2 && low - 2 <= n <= g.stackBase;
            && (grows ==> n <= low && g' == g.(stackPages := g.stackPages + (low - n)))
            && (grows ==> forall i: nat :: n <= i < low ==> Usable(s', r, i, false))
            && (!grows ==> g' == g.(pages := g.pages + 1) && Usable(s', r, n, true))
            && forall i: nat :: i < USER_PAGES && !(n <= i < if grows then low else n + 1) ==>
                 Leaf(s'.mem, r, i) == Leaf(s.mem, r, i)
  {
    FaultBelow(s, r, g, n);
    WindowNumbers(g, n);
    hide *;
    FaultMaps(s, r, g, n);
  }

  lemma FaultMaps(s: Sys, r: nat, g: Region, n: nat)
    requires Inv(s) && CanFault(s, r, g, n)
    ensures var (s', g') := DemandFault(s, r, g, n); var k := StackGap(g, n);
            if InStackWindow(g, n) then g' == g.(stackPages := g.stackPages + k) && MapsRange(s, s', r, n, k, false)
            else g' == g.(pages := g.pages + 1) && MapsRange(s, s', r, n, 1, true)
  {
    hide *;
    FaultFits(s, r, g, n);
    FaultRegion(s, r, g, n);
    WalkReplacesNone(s, r, n);
    var s1 := EnsureTo(s.(cur := r), n, 1);
    if InStackWindow(g, n) {
      GrowInRange(s1, n, StackGap(g, n));
      GrowMaps(s1, n, StackGap(g, n));
    } else {
      OneMaps(s1, n);
    }
    MapsAfterWalk(s, s1, DemandFault(s, r, g, n).0, r, n, FaultSize(g, n), !InStackWindow(g, n));
  }

  lemma FaultFits(s: Sys, r: nat, g: Region, n: nat)
    requires CanFault(s, r, g, n)
    ensures IsRoot(s.role, r) && n < USER_PAGES && |Free(s.info)| >= Missing(s.mem, r, n, 1)
    ensures var s1 := EnsureTo(s.(cur := r), n, 1);
            if InStackWindow(g, n) then
              && GrowFits(s1, n, StackGap(g, n)) && FaultSize(g, n) == StackGap(g, n)
              && DemandFault(s, r, g, n).0 == GrowStack(s1, n, StackGap(g, n))
            else
              CanMapFresh(s1, n) && FaultSize(g, n) == 1 && DemandFault(s, r, g, n).0 == MapFresh(s1, n, false)
  {
    hide EnsureTo; hide GrowStack; hide MapFresh; hide GrowFits; hide CanMapFresh; hide InStackWindow; hide StackGap;
    hide Missing; hide Free; hide Leaf;
  }

  lemma MapsAfterWalk(s: Sys, s1: Sys, s': Sys, r: nat, n: nat, k: nat, x: bool)
    requires MapsRange(s1, s', r, n, k, x)
    requires forall i: nat :: i < USER_PAGES ==> Leaf(s1.mem, r, i) == Leaf(s.mem, r, i)
    ensures MapsRange(s, s', r, n, k, x)
  {
    hide Leaf;
  }

  lemma WindowNumbers(g: Region, n: nat)
    requires PlainStack(g) && n < USER_PAGES && AtOrBelow(g, n)
    ensures var low := g.stackBase + 1 - g.stackPages;
            && (InStackWindow(g, n) <==> low >= 2 && low - 2 <= n <= g.stackBase)
            && (InStackWindow(g, n) ==> n <= low && StackGap(g, n) == low - n)
  {
  }

  // ---------------------------------------------------------------------------------
  // The handler's decisions
  // ---------------------------------------------------------------------------------

  datatype Verdict = Killed | Unshares | Maps | MapsKernel

  /** HandlePageFault: the state and the ranges it leaves, and what it has decided.  The teardown of
      a killed process is Exit. */
  function PageFault(s: Sys, r: nat, g: Region, addr: nat): (Sys, Region, Verdict) {
    var n := addr / PAGE_SIZE;
    if n >= USER_PAGES then (MemoryLimits.KernelFault(s, n), g, MapsKernel)
    else if Kills(g, addr) then (s, g, Killed)
    else
      var s1 := EnsureTo(s.(cur := r), n, 1);
      if Leaf(s1.mem, r, n).cow then (CowFault(s1, n), g, Unshares)
      else
        var (s2, g2) := DemandFault(s1, r, g, n);
        (s2, g2, Verdict.Maps)
  }

  /** The walk that precedes the decision is the one that either branch begins with. */
  lemma WalkedTwice(s: Sys, r: nat, n: nat)
    requires Inv(s) && IsRoot(s.role, r) && n < USER_PAGES && |Free(s.info)| >= Missing(s.mem, r, n, 1)
    ensures var s1 := EnsureTo(s.(cur := r), n, 1);
            && s1.cur == r && EnsureTo(s1, n, 1) == s1 && Leaf(s1.mem, r, n) == Leaf(s.mem, r, n)
  {
    hide Leaf; hide Linked; hide LeavesOwned; hide KernelHalfShared; hide EnsureTo;
    SameButCur(s, r);
    EnsureToKeeps(s.(cur := r), n, 1);
    var s1 := EnsureTo(s.(cur := r), n, 1);
    SameRoots(s.(cur := r), s1);
    NothingMissing(s1.mem, r, n, 1);
    EnsureToKeeps(s1, n, 1);
  }

  /** The handler takes exactly the step of the run that is possible: none where the process is to be
      killed, a copy where the page is copy-on-write, and otherwise a fault that maps. */
  lemma PageFaultIsStep(w: World, r: nat, addr: nat)
    requires WorldInv(w) && r in w.procs && addr < USER_PAGES * 0x1000
    requires |Free(w.sys.info)| >= Missing(w.sys.mem, r, addr / 0x1000, 1)
    ensures var g := w.procs[r]; var (s', g', verdict) := PageFault(w.sys, r, g, addr);
            && (verdict == Killed <==> !InCode(g, addr) && !InStack(g, addr) && !NearStack(g, addr))
            && (verdict == Killed ==> s' == w.sys && g' == g)
            && (verdict == Killed ==> !Enabled(w, Fault(r, addr)) && !Enabled(w, Cow(r, addr)))
            && (verdict == Unshares ==>
                  && Leaf(w.sys.mem, r, addr / 0x1000).cow && !Enabled(w, Fault(r, addr)) && g' == g
                  && (Enabled(w, Cow(r, addr)) ==> s' == Exec(w, Cow(r, addr)).sys))
            && (verdict == Verdict.Maps ==>
                  && !Leaf(w.sys.mem, r, addr / 0x1000).cow && !Enabled(w, Cow(r, addr))
                  && Exec(w, Fault(r, addr)) == World(s', w.procs[r := g']))
            && verdict != MapsKernel
  {
    hide *;
    StackOf(w, r);
    PlainStackOf(w, r);
    KillsIff(w.procs[r], addr);
    PageNumber(addr);
    PageFaultCases(w.sys, r, w.procs[r], addr);
    WalkedTwice(w.sys, r, addr / 0x1000);
    CowFromWalk(w.sys, r, w.procs[r], addr / 0x1000);
    CowDecides(w, r, addr);
    FaultSteps(w, r, addr);
  }

  lemma PageNumber(addr: nat)
    requires addr < USER_PAGES * 0x1000
    ensures addr / 0x1000 < USER_PAGES
  {
  }

  lemma PageFaultCases(s: Sys, r: nat, g: Region, addr: nat)
    requires addr / 0x1000 < USER_PAGES
    ensures var n := addr / 0x1000; var s1 := EnsureTo(s.(cur := r), n, 1); var (s2, g2) := DemandFault(s1, r, g, n);
            PageFault(s, r, g, addr) ==
              if Kills(g, addr) then (s, g, Killed)
              else if Leaf(s1.mem, r, n).cow then (CowFault(s1, n), g, Unshares)
              else (s2, g2, Verdict.Maps)
  {
    hide Kills; hide Leaf; hide EnsureTo; hide CowFault; hide DemandFault;
  }

  lemma FaultSteps(w: World, r: nat, addr: nat)
    requires r in w.procs
    ensures Exec(w, Cow(r, addr)).sys == CowFault(w.sys.(cur := r), addr / 0x1000)
    ensures var (s, g) := DemandFault(w.sys, r, w.procs[r], addr / 0x1000); Exec(w, Fault(r, addr)) == World(s, w.procs[r := g])
  {
    hide CowFault; hide DemandFault;
  }

  lemma CowDecides(w: World, r: nat, addr: nat)
    requires r in w.procs
    ensures Enabled(w, Fault(r, addr)) ==> !Kills(w.procs[r], addr) && !Leaf(w.sys.mem, r, addr / 0x1000).cow
    ensures Enabled(w, Cow(r, addr)) ==> !Kills(w.procs[r], addr) && Leaf(w.sys.mem, r, addr / 0x1000).cow
  {
    hide Kills; hide Leaf; hide EnsureTo; hide GrowFits; hide CanMapFresh; hide Missing; hide Free; hide InStackWindow; hide StackGap;
  }

  lemma CowFromWalk(s: Sys, r: nat, g: Region, n: nat)
    requires var s1 := EnsureTo(s.(cur := r), n, 1); s1.cur == r && EnsureTo(s1, n, 1) == s1
    ensures CowFault(EnsureTo(s.(cur := r), n, 1), n) == CowFault(s.(cur := r), n)
    ensures DemandFault(EnsureTo(s.(cur := r), n, 1), r, g, n) == DemandFault(s, r, g, n)
  {
    hide EnsureTo; hide Leaf;
  }
}
