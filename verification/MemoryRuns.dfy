/**
  Whole runs of the memory system: processes that write, fault, grow their stacks and
  fork, and a kernel that allocates, in any order.

  The machine is compared with an eager one that has no frames, no sharing and no page
  tables: it holds one image per process, and fork copies the parent's image at once.
 */
module MemoryRuns {
  import opened Words
  import opened PageTables
  import opened AddressSpace
  import opened CopyOnWrite
  import opened Fork

  /** The machine and its processes, each named by the root of its address space. */
  datatype World = World(sys: Sys, procs: map<nat, Region>)

  datatype Step =
    | Write(r: nat, n: nat, i: nat, v: Word)
    | Cow(r: nat, addr: nat)
    | Fault(r: nat, addr: nat)
    | Spawn(r: nat)
    | KernelPage

  // ---------------------------------------------------------------------------------
  // Faults that map pages
  // ---------------------------------------------------------------------------------

  const PAGE_SIZE: nat := 0x1000

  /** Addresses are 64 bits wide, so page numbers wrap at 52. */
  const ALL_PAGE_NUMBERS: nat := 0x10_0000_0000_0000

  function Wrapped(x: int): nat {
    x % ALL_PAGE_NUMBERS
  }

  /** The lowest page of the stack. */
  function StackLow(g: Region): nat {
    Wrapped(g.stackBase - (g.stackPages - 1))
  }

  /** mem_access_ok for an address in the user half. */
  predicate AccessOk(g: Region, addr: nat) {
    || g.base * PAGE_SIZE < addr < (g.base + g.pages) * PAGE_SIZE
    || Wrapped(g.stackBase - g.stackPages) * PAGE_SIZE < addr < (g.stackBase + 1) * PAGE_SIZE
  }

  /** The fault handler kills the process instead of mapping a page. */
  predicate Kills(g: Region, addr: nat) {
    !AccessOk(g, addr) && addr / PAGE_SIZE < Wrapped(StackLow(g) - 4)
  }

  predicate InStackWindow(g: Region, n: nat) {
    Wrapped(StackLow(g) - 2) <= n <= g.stackBase
  }

  /** Pages from the faulting one up to the present bottom of the stack; the subtraction is
      unsigned, so for a page above that bottom it wraps. */
  function StackGap(g: Region, n: nat): nat {
    Wrapped(StackLow(g) - n)
  }

  /** alloc_page with the next free frame, at a user page. */
  function MapFresh(s: Sys, n: nat, xd: bool): Sys {
    Alloc(s, n, FindFree(s.info), USER_FLAGS, xd)
  }

  function GrowStack(s: Sys, n: nat, k: nat): Sys
    decreases k
  {
    if k == 0 then s else GrowStack(MapFresh(s, n, true), n + 1, k - 1)
  }

  /** The part of HandlePageFault that serves a page which is not CoW.  It does not ask whether
      the page, or another that it is about to map, is mapped already. */
  function DemandFault(s: Sys, r: nat, g: Region, n: nat): (Sys, Region) {
    var s1 := EnsureTo(s.(cur := r), n, 1);
    if InStackWindow(g, n) then
      (GrowStack(s1, n, StackGap(g, n)), g.(stackPages := g.stackPages + StackGap(g, n)))
    else
      (MapFresh(s1, n, false), g.(pages := g.pages + 1))
  }

  /** The page is not one of the stack's but its lowest. */
  predicate AtOrBelow(g: Region, n: nat) {
    InStackWindow(g, n) ==> n <= StackLow(g)
  }

  /** How many pages such a fault maps, from the faulting one upwards. */
  function FaultSize(g: Region, n: nat): nat {
    if InStackWindow(g, n) then StackGap(g, n) else 1
  }

  // ---------------------------------------------------------------------------------
  // The machine
  // ---------------------------------------------------------------------------------

  function Exec(w: World, st: Step): World {
    match st
    case Write(r, n, i, v) => w.(sys := UserWrite(w.sys, r, n, i, v))
    case Cow(r, addr) => w.(sys := CowFault(w.sys.(cur := r), addr / PAGE_SIZE))
    case Fault(r, addr) =>
      if r in w.procs then
        var (s, g) := DemandFault(w.sys, r, w.procs[r], addr / PAGE_SIZE);
        World(s, w.procs[r := g])
      else w
    case Spawn(r) =>
      if r in w.procs then
        var (s, c) := Fork.Fork(w.sys, r, w.procs[r]);
        World(s, w.procs[c := w.procs[r]])
      else w
    case KernelPage => w.(sys := Malloc(w.sys))
  }

  function ExecAll(w: World, steps: seq<Step>): World
    decreases |steps|
  {
    if steps == [] then w else ExecAll(Exec(w, steps[0]), steps[1..])
  }

  ghost predicate CanMapFresh(s: Sys, n: nat) {
    Free(s.info) != {} && CanAlloc(s, n, FindFree(s.info))
  }

  ghost predicate GrowFits(s: Sys, n: nat, k: nat)
    decreases k
  {
    k == 0 || (CanMapFresh(s, n) && GrowFits(MapFresh(s, n, true), n + 1, k - 1))
  }

  /** The faulting page is not CoW, and no allocation finds memory exhausted. */
  ghost predicate CanFault(s: Sys, r: nat, g: Region, n: nat) {
    && IsRoot(s.role, r) && n < USER_PAGES
    && !Leaf(s.mem, r, n).cow
    && |Free(s.info)| >= Missing(s.mem, r, n, 1)
    && var s1 := EnsureTo(s.(cur := r), n, 1);
       if InStackWindow(g, n) then GrowFits(s1, n, StackGap(g, n)) else CanMapFresh(s1, n)
  }

  /** The steps of a run: what the hardware and the kernel let happen, while memory lasts.
      Spawn also asks that every page shared is counted. */
  ghost predicate Enabled(w: World, st: Step) {
    match st
    case Write(r, n, i, v) => r in w.procs && CanWrite(w.sys, r, n, i)
    case Cow(r, addr) => r in w.procs && !Kills(w.procs[r], addr) && CanResolve(w.sys.(cur := r), addr / PAGE_SIZE)
    case Fault(r, addr) => r in w.procs && !Kills(w.procs[r], addr) && CanFault(w.sys, r, w.procs[r], addr / PAGE_SIZE)
    case Spawn(r) => r in w.procs && CanFork(w.sys, r, w.procs[r]) && CountedPages(w.sys, r, PagesOf(w.procs[r]))
    case KernelPage => CanMalloc(w.sys)
  }

  ghost predicate AllEnabled(w: World, steps: seq<Step>)
    decreases |steps|
  {
    steps == [] || (Enabled(w, steps[0]) && AllEnabled(Exec(w, steps[0]), steps[1..]))
  }

  // ---------------------------------------------------------------------------------
  // The eager machine
  // ---------------------------------------------------------------------------------

  datatype Eager = Eager(images: map<nat, Image>, procs: map<nat, Region>)

  function PutPage(v: Image, n: nat, content: seq<Word>): Image {
    v[n := content]
  }

  /** None of the size pages from n on is there yet. */
  ghost predicate RangeFree(v: Image, n: nat, size: nat) {
    forall k: nat :: n <= k < n + size ==> k !in v
  }

  /** v' is v, every page of it kept, with the size pages from n on besides. */
  ghost predicate GainsPages(v: Image, v': Image, n: nat, size: nat) {
    && (forall k: nat :: n <= k < n + size ==> k in v')
    && (forall k: nat :: k in v ==> k in v' && v'[k] == v[k])
    && (forall k: nat :: k in v' ==> k in v || n <= k < n + size)
  }

  /** v' has the size pages from n on, with whatever content, and is otherwise v: pages of v in
      that range are lost. */
  ghost predicate CoversPages(v: Image, v': Image, n: nat, size: nat) {
    && (forall k: nat :: n <= k < n + size ==> k in v')
    && (forall k: nat :: !(n <= k < n + size) ==> (k in v' <==> k in v) && (k in v ==> v'[k] == v[k]))
  }

  /** What a fault is meant to do, and what it does when it meets pages that are there. */
  ghost predicate FaultImage(v: Image, v': Image, n: nat, size: nat) {
    if RangeFree(v, n, size) then GainsPages(v, v', n, size) else CoversPages(v, v', n, size)
  }

  ghost predicate EagerStep(e: Eager, st: Step, e': Eager) {
    match st
    case Write(r, n, i, v) =>
      && r in e.images && n in e.images[r] && i < |e.images[r][n]|
      && e' == e.(images := e.images[r := PutPage(e.images[r], n, e.images[r][n][i := v])])
    case Cow(r, addr) => e' == e
    case Fault(r, addr) =>
      var n := addr / PAGE_SIZE;
      && r in e.images && r in e.procs && r in e'.images
      && e'.images == e.images[r := e'.images[r]] && FaultImage(e.images[r], e'.images[r], n, FaultSize(e.procs[r], n))
      && e'.procs == e.procs[r := if InStackWindow(e.procs[r], n)
                                  then e.procs[r].(stackPages := e.procs[r].stackPages + StackGap(e.procs[r], n))
                                  else e.procs[r].(pages := e.procs[r].pages + 1)]
    case Spawn(r) =>
      && r in e.images && r in e.procs
      && exists c: nat :: c !in e.images &&
           e' == Eager(e.images[c := CopyPages(map[], e.images[r], PagesOf(e.procs[r]))], e.procs[c := e.procs[r]])
    case KernelPage => e' == e
  }

  ghost predicate EagerRun(e: Eager, steps: seq<Step>, e': Eager)
    decreases |steps|
  {
    if steps == [] then e' == e
    else exists mid :: EagerStep(e, steps[0], mid) && EagerRun(mid, steps[1..], e')
  }

  /** What the machine looks like to its processes. */
  ghost function Observed(w: World): Eager {
    Eager(Views(w.sys), w.procs)
  }

  // ---------------------------------------------------------------------------------
  // Invariant
  // ---------------------------------------------------------------------------------

  /** The stack is contiguous: all its pages are mapped. */
  predicate StackIn(v: Image, g: Region) {
    && 1 <= g.stackPages <= g.stackBase + 1
    && forall n: nat :: g.stackBase - g.stackPages < n <= g.stackBase ==> n in v
  }

  ghost predicate StacksMapped(e: Eager) {
    forall r :: r in e.procs ==> r in e.images && StackIn(e.images[r], e.procs[r])
  }

  ghost predicate WorldInv(w: World) {
    Safe(w.sys) && StacksMapped(Observed(w))
  }

  // ---------------------------------------------------------------------------------
  // Each step refines its eager counterpart
  // ---------------------------------------------------------------------------------

  /** Building tables for a walk is invisible in every address space. */
  lemma EnsureSafe(s: Sys, r: nat, n: nat)
    requires Safe(s) && IsRoot(s.role, r) && n < USER_PAGES && |Free(s.info)| >= Missing(s.mem, r, n, 1)
    ensures var s1 := EnsureTo(s.(cur := r), n, 1);
            Safe(s1) && Views(s1) == Views(s) && IsRoot(s1.role, r) && s1.cur == r
  {
    var s0 := s.(cur := r);
    SameButCur(s, r);
    EnsureToKeeps(s0, n, 1);
    var s1 := EnsureTo(s0, n, 1);
    SameRoots(s0, s1);
    hide EnsureTo; hide Leaf; hide Linked; hide LeavesOwned; hide KernelHalfShared; hide Mappers; hide Views;
    forall g | 0 <= g < |s0.mem|
      ensures s1.info[g].refcount == s0.info[g].refcount
      ensures UserFrame(s0, g) ==> s1.mem[g] == s0.mem[g]
    {
      assert Kept(s0, s1, g);
    }
    SameLeaves(s0, s1);
    SafetyKept(s0, s1);
  }

  /** From a to a' the image of r got pages and no other image changed. */
  ghost predicate OneCovers(a: map<nat, Image>, a': map<nat, Image>, r: nat, n: nat, size: nat) {
    r in a && r in a' && a' == a[r := a'[r]] && CoversPages(a[r], a'[r], n, size)
  }

  lemma CoversJoin(a: map<nat, Image>, b: map<nat, Image>, c: map<nat, Image>, r: nat, n: nat, k: nat)
    requires k > 0 && OneCovers(a, b, r, n, 1) && OneCovers(b, c, r, n + 1, k - 1)
    ensures OneCovers(a, c, r, n, k)
  {
    Overwrite(a, r, b[r], c[r]);
    forall j: nat | !(n <= j < n + k) ensures (j in c[r] <==> j in a[r]) && (j in a[r] ==> c[r][j] == a[r][j]) {
      assert j in b[r] <==> j in a[r];
    }
  }

  lemma PutCovers(a: map<nat, Image>, a': map<nat, Image>, r: nat, v: Image, n: nat, content: seq<Word>)
    requires r in a && a[r] == v && a' == a[r := v[n := content]]
    ensures OneCovers(a, a', r, n, 1)
  {
  }

  /** The next free frame can be mapped without touching anybody's page. */
  lemma FreshShareable(s: Sys)
    requires Inv(s) && Free(s.info) != {}
    ensures FindFree(s.info) < |s.mem| == |s.info| && Mappers(s, FindFree(s.info)) == {}
  {
    FindFreeSpec(s.info);
    Unmapped(s, FindFree(s.info));
  }

  /** A new page appears in the current address space and nowhere else. */
  lemma MapFreshSafe(s: Sys, n: nat, xd: bool)
    requires Safe(s) && CanMapFresh(s, n)
    ensures var s' := MapFresh(s, n, xd);
            Safe(s') && s'.cur == s.cur && SameRootSet(s, s') && OneCovers(Views(s), Views(s'), s.cur, n, 1)
  {
    assert Inv(s) && IsRoot(s.role, s.cur);
    hide Leaf; hide Inv; hide FindFree; hide CanAlloc; hide Mappers; hide View; hide Views; hide Alloc; hide Safe; hide CoversPages; hide OneCovers;
    FreshShareable(s);
    var f := FindFree(s.info);
    AllocSafe(s, n, f, USER_FLAGS, xd);
    ViewOf(s, s.cur);
    PutCovers(Views(s), Views(MapFresh(s, n, xd)), s.cur, View(s, s.cur), n, s.mem[f]);
  }

  /** Stack growth maps the pages of the gap, all of them, in one address space. */
  lemma {:induction false} GrowStackSafe(s: Sys, n: nat, k: nat)
    requires Safe(s) && GrowFits(s, n, k) && s.cur in Views(s)
    ensures var s' := GrowStack(s, n, k);
            Safe(s') && OneCovers(Views(s), Views(s'), s.cur, n, k)
    decreases k
  {
    hide MapFresh; hide Safe; hide CanMapFresh; hide Views;
    if k == 0 {
      Rewrite(Views(s), s.cur, Views(s)[s.cur]);
    } else {
      var s1 := MapFresh(s, n, true);
      MapFreshSafe(s, n, true);
      GrowStackSafe(s1, n + 1, k - 1);
      CoversJoin(Views(s), Views(s1), Views(GrowStack(s1, n + 1, k - 1)), s.cur, n, k);
    }
  }

  /** A fault gives the process its pages, and no other process anything. */
  lemma DemandFaultSafe(s: Sys, r: nat, g: Region, n: nat)
    requires Safe(s) && CanFault(s, r, g, n)
    ensures var (s', g') := DemandFault(s, r, g, n);
            && Safe(s') && OneCovers(Views(s), Views(s'), r, n, FaultSize(g, n))
            && FaultImage(Views(s)[r], Views(s')[r], n, FaultSize(g, n))
  {
    hide FaultImage; hide CoversPages;
    EnsureSafe(s, r, n);
    var s1 := EnsureTo(s.(cur := r), n, 1);
    assert r in Views(s1);
    hide Safe; hide Views; hide EnsureTo; hide Leaf; hide GrowStack; hide MapFresh; hide GrowFits; hide CanMapFresh; hide Missing;
    if InStackWindow(g, n) {
      GrowStackSafe(s1, n, StackGap(g, n));
    } else {
      MapFreshSafe(s1, n, false);
    }
    CoversIsFaultImage(Views(s)[r], Views(DemandFault(s, r, g, n).0)[r], n, FaultSize(g, n));
  }

  lemma CoversIsFaultImage(v: Image, v': Image, n: nat, size: nat)
    requires CoversPages(v, v', n, size)
    ensures FaultImage(v, v', n, size)
  {
  }

  /** After a fault the stack is still contiguous, and grown down to the faulting page if the
      fault was one of the stack's. */
  lemma DemandFaultStack(v: Image, v': Image, g: Region, n: nat)
    requires StackIn(v, g) && CoversPages(v, v', n, FaultSize(g, n)) && AtOrBelow(g, n) && g.stackBase < USER_PAGES
    ensures StackIn(v', if InStackWindow(g, n) then g.(stackPages := g.stackPages + StackGap(g, n)) else g.(pages := g.pages + 1))
  {
    forall k: nat | k in v ensures k in v' {
      if !(n <= k < n + FaultSize(g, n)) {
        assert k in v' <==> k in v;
      }
    }
  }

  lemma {:induction false} GrowInRange(s: Sys, n: nat, k: nat)
    requires GrowFits(s, n, k) && n <= USER_PAGES
    ensures n + k <= USER_PAGES
    decreases k
  {
    hide MapFresh; hide FindFree; hide AllocOutcome; hide Missing; hide Free;
    if k > 0 {
      GrowInRange(MapFresh(s, n, true), n + 1, k - 1);
    }
  }

  /** The pages missing between page n and the stack. */
  function PlainGap(g: Region, n: nat): nat {
    if n < StackLow(g) then StackLow(g) - n else 0
  }

  /** The loop's count is that of the missing pages exactly at or below the bottom of the stack. */
  lemma StackGapIff(g: Region, n: nat)
    requires n < ALL_PAGE_NUMBERS
    ensures StackGap(g, n) == PlainGap(g, n) <==> n <= StackLow(g)
  {
  }

  /** Above it, the loop would have to map more pages than a process can have. */
  lemma GapAbove(g: Region, n: nat)
    requires StackLow(g) < n < USER_PAGES
    ensures StackGap(g, n) > USER_PAGES
  {
  }

  lemma FaultBelow(s: Sys, r: nat, g: Region, n: nat)
    requires CanFault(s, r, g, n)
    ensures AtOrBelow(g, n)
  {
    hide EnsureTo; hide StackGap; hide StackLow; hide Leaf; hide CanMapFresh; hide Missing; hide Free; hide InStackWindow;
    if InStackWindow(g, n) && n > StackLow(g) {
      GapAbove(g, n);
      GrowInRange(EnsureTo(s.(cur := r), n, 1), n, StackGap(g, n));
    }
  }

  lemma StackInHalf(s: Sys, r: nat, g: Region)
    requires r in Views(s) && StackIn(Views(s)[r], g)
    ensures g.stackBase < USER_PAGES
  {
    hide Leaf;
    assert g.stackBase in Views(s)[r];
  }

  lemma FaultRefines(w: World, r: nat, addr: nat)
    requires WorldInv(w) && Enabled(w, Fault(r, addr))
    ensures var w' := Exec(w, Fault(r, addr));
            WorldInv(w') && EagerStep(Observed(w), Fault(r, addr), Observed(w'))
  {
    hide Safe; hide CanFault; hide DemandFault; hide Views; hide StackIn; hide CoversPages; hide FaultImage; hide Kills;
    var n := addr / PAGE_SIZE;
    DemandFaultSafe(w.sys, r, w.procs[r], n);
    var (s', g') := DemandFault(w.sys, r, w.procs[r], n);
    FaultRegion(w.sys, r, w.procs[r], n);
    FaultBelow(w.sys, r, w.procs[r], n);
    StackInHalf(w.sys, r, w.procs[r]);
    DemandFaultStack(Views(w.sys)[r], Views(s')[r], w.procs[r], n);
  }

  lemma FaultRegion(s: Sys, r: nat, g: Region, n: nat)
    ensures DemandFault(s, r, g, n).1 ==
              if InStackWindow(g, n) then g.(stackPages := g.stackPages + StackGap(g, n)) else g.(pages := g.pages + 1)
  {
  }

  lemma WriteRefines(w: World, r: nat, n: nat, i: nat, v: Word)
    requires WorldInv(w) && Enabled(w, Write(r, n, i, v))
    ensures var w' := Exec(w, Write(r, n, i, v));
            WorldInv(w') && EagerStep(Observed(w), Write(r, n, i, v), Observed(w'))
  {
    hide Safe; hide UserWrite; hide Views; hide View; hide Leaf; hide StackIn;
    UserWriteSafe(w.sys, r, n, i, v);
    ViewOf(w.sys, r);
    MappedView(w.sys, r, n);
    var a := Views(w.sys);
    var a' := Views(UserWrite(w.sys, r, n, i, v));
    assert a' == a[r := PutPage(a[r], n, a[r][n][i := v])];
    StackKept(a[r], PutPage(a[r], n, a[r][n][i := v]), w.procs[r]);
  }

  lemma StackKept(v: Image, v': Image, g: Region)
    requires StackIn(v, g) && v.Keys <= v'.Keys
    ensures StackIn(v', g)
  {
  }

  lemma SpawnRefines(w: World, r: nat)
    requires WorldInv(w) && Enabled(w, Spawn(r))
    ensures var w' := Exec(w, Spawn(r));
            WorldInv(w') && EagerStep(Observed(w), Spawn(r), Observed(w'))
  {
    hide Safe; hide Fork.Fork; hide Views; hide View; hide StackIn; hide CanFork; hide CountedPages; hide CopyPages; hide PagesOf;
    var g := w.procs[r];
    var (s', c) := Fork.Fork(w.sys, r, g);
    var a := Views(w.sys);
    SpawnRoot(w.sys, r, g);
    ViewOf(w.sys, r);
    ForkSafe(w.sys, r, g);
    ForkedStack(a[r], g);
    assert Views(s') == a[c := CopyPages(map[], a[r], PagesOf(g))];
  }

  lemma SpawnRoot(s: Sys, r: nat, g: Region)
    requires CanFork(s, r, g)
    ensures IsRoot(s.role, r)
  {
  }

  /** The child's stack is as contiguous as the parent's. */
  lemma ForkedStack(v: Image, g: Region)
    requires StackIn(v, g)
    ensures StackIn(CopyPages(map[], v, PagesOf(g)), g)
  {
    forall n: nat | g.stackBase - g.stackPages < n <= g.stackBase ensures n in CopyPages(map[], v, PagesOf(g)) {
      assert StackPages(g)[g.stackBase - n] == n;
      assert PagesOf(g)[g.pages + (g.stackBase - n)] == n;
      CopyPagesContent(map[], v, PagesOf(g), n);
    }
  }

  /** Copy-on-write refines eager copying, one step at a time: every step the machine can take
      keeps it safe and its stacks contiguous, and looks to all processes like the same step of
      the eager machine. */
  lemma StepRefines(w: World, st: Step)
    requires WorldInv(w) && Enabled(w, st)
    ensures WorldInv(Exec(w, st)) && EagerStep(Observed(w), st, Observed(Exec(w, st)))
  {
    match st
    case Write(r, n, i, v) => WriteRefines(w, r, n, i, v);
    case Cow(r, addr) => CowRefines(w, r, addr);
    case Fault(r, addr) => FaultRefines(w, r, addr);
    case Spawn(r) => SpawnRefines(w, r);
    case KernelPage => MallocSafe(w.sys);
      MallocFacts(w.sys);
  }

  lemma CowRefines(w: World, r: nat, addr: nat)
    requires WorldInv(w) && Enabled(w, Cow(r, addr))
    ensures var w' := Exec(w, Cow(r, addr));
            WorldInv(w') && Observed(w') == Observed(w)
  {
    assert IsRoot(w.sys.role, r);
    SameButCur(w.sys, r);
    hide CowFault; hide Views; hide Leaf; hide Inv; hide Mappers; hide Counted; hide Exclusive;
    CowFaultSafe(w.sys.(cur := r), addr / PAGE_SIZE);
  }

  /** ... and hence over whole runs: whatever the interleaving of writes, faults, forks and
      kernel allocations, the processes see a run of the eager machine. */
  lemma {:induction false} RunRefines(w: World, steps: seq<Step>)
    requires WorldInv(w) && AllEnabled(w, steps)
    ensures WorldInv(ExecAll(w, steps)) && EagerRun(Observed(w), steps, Observed(ExecAll(w, steps)))
    decreases |steps|
  {
    hide WorldInv; hide Enabled; hide Exec; hide EagerStep; hide Observed;
    if steps != [] {
      StepRefines(w, steps[0]);
      RunRefines(Exec(w, steps[0]), steps[1..]);
    }
  }
}
