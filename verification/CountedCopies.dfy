/**
  The memory system with the one repair its accounting needs: a copy-on-write copy counts
  the mapping it makes.  With it no page is ever uncounted, so fork needs no precaution.
 */
module CountedCopies {
  import opened Words
  import opened PageTables
  import opened AddressSpace
  import opened CopyOnWrite
  import opened Fork
  import opened MemoryRuns
  import opened Faults

  function AddReference(s: Sys, f: nat): Sys {
    s.(info := SetInfo(s.info, f, InfoAt(s.info, f).(refcount := InfoAt(s.info, f).refcount + 1)))
  }

  /** The copy-on-write fault, with the reference count of a fresh copy set to one. */
  function CountedCowFault(s: Sys, n: nat): Sys {
    var s' := CowFault(s, n);
    if InfoAt(s.info, Leaf(s.mem, s.cur, n).frame).refcount <= 1 then s'
    else AddReference(s', Leaf(s'.mem, s'.cur, n).frame)
  }

  function ExecCounted(w: World, st: Step): World {
    match st
    case Cow(r, addr) => w.(sys := CountedCowFault(w.sys.(cur := r), addr / PAGE_SIZE))
    case _ => Exec(w, st)
  }

  function ExecCountedAll(w: World, steps: seq<Step>): World
    decreases |steps|
  {
    if steps == [] then w else ExecCountedAll(ExecCounted(w, steps[0]), steps[1..])
  }

  /** As Enabled, without the demand that shared pages are counted. */
  ghost predicate Possible(w: World, st: Step) {
    if st.Spawn? then st.r in w.procs && CanFork(w.sys, st.r, w.procs[st.r]) else Enabled(w, st)
  }

  ghost predicate AllPossible(w: World, steps: seq<Step>)
    decreases |steps|
  {
    steps == [] || (Possible(w, steps[0]) && AllPossible(ExecCounted(w, steps[0]), steps[1..]))
  }

  /** A frame has at least as many references as user mappings. */
  ghost predicate Strict(s: Sys) {
    forall f :: 0 <= f < |s.info| ==> |Mappers(s, f)| <= s.info[f].refcount
  }

  /** Under strict counting every mapped page is counted. */
  lemma StrictIsCounted(s: Sys, r: nat, pages: seq<nat>)
    requires Inv(s) && Strict(s) && IsRoot(s.role, r) && AllMapped(s, r, pages)
    ensures CountedPages(s, r, pages)
  {
    forall i | 0 <= i < |pages| ensures InfoAt(s.info, Leaf(s.mem, r, pages[i]).frame).refcount >= 1 {
      MappedFrame(s, r, pages[i]);
      hide Mappers; hide Leaf;
      var M := Mappers(s, Leaf(s.mem, r, pages[i]).frame);
      assert M != {};
    }
  }

  lemma AccountedStrict(s: Sys, s': Sys, exact: bool)
    requires Strict(s) && Accounted(s, s', exact)
    ensures Strict(s')
  {
    hide Mappers;
    forall f | 0 <= f < |s.info| ensures Slack(s, f) >= 0 {
    }
    forall f | 0 <= f < |s'.info| ensures |Mappers(s', f)| <= s'.info[f].refcount {
      assert Slack(s', f) >= 0;
    }
  }

  // ---------------------------------------------------------------------------------
  // The copy-on-write fault
  // ---------------------------------------------------------------------------------

  /** The old frame loses a mapping and a reference, the new one gains one of each. */
  lemma CountedCopyAccount(s: Sys, n: nat)
    requires WillCopy(s, n)
    ensures var s' := CowFault(s, n); var spare := FindFree(s.info);
            && spare < |s'.info| && Leaf(s'.mem, s'.cur, n).frame == spare
            && Accounted(s, AddReference(s', spare), true)
  {
    hide Leaf; hide CowFault; hide Linked; hide LeavesOwned; hide KernelHalfShared; hide Mappers;
    CowCopyFacts(s, n);
    var w := Leaf(s.mem, s.cur, n);
    var spare := FindFree(s.info);
    var s1 := Copied(s, w.frame, spare);
    var s' := CowFault(s, n);
    SameLeaves(s, s1);
    MappedFrame(s, s.cur, n);
    SameMappers(s', AddReference(s', spare));
    CopyTarget(s, n);
    assert (s.cur, n) in Mappers(s, w.frame);
    forall f: nat | f < |s.info| ensures Slack(AddReference(s', spare), f) == Slack(s, f) {
      CopySlack(s, s1, s', s.cur, n, w.frame, Unshared(w, spare), f);
    }
  }

  lemma CopySlack(s: Sys, s1: Sys, s': Sys, r: nat, n: nat, g: nat, e: Word, f: nat)
    requires Switched(s1, s', r, n, e) && f < |s.info| == |s1.info| && s'.info == s1.info && g != e.frame
    requires Mappers(s1, f) == Mappers(s, f) && Mappers(AddReference(s', e.frame), f) == Mappers(s', f)
    requires Leaf(s1.mem, r, n).p && Leaf(s1.mem, r, n).frame == g
    requires s1.info[f].refcount == s.info[f].refcount - if f == g then 1 else 0
    ensures Slack(AddReference(s', e.frame), f) == Slack(s, f)
  {
    hide Leaf; hide Retargets;
    RetargetMappers(s1, s', r, n, e, f);
    InMappers(s1, r, n, f);
    hide Mappers;
    MoveOne(Mappers(s, f), Mappers(s', f), (r, n), f == e.frame);
  }

  lemma SameMappers(s: Sys, s': Sys)
    requires s'.mem == s.mem && s'.role == s.role
    ensures forall f :: Mappers(s', f) == Mappers(s, f)
  {
    forall f ensures Mappers(s', f) == Mappers(s, f) {
      assert forall r: nat, n: nat :: Maps(s', r, n, f) <==> Maps(s, r, n, f);
    }
  }

  /** One more reference to a frame in use changes nothing that matters to safety. */
  lemma AddReferenceSafe(s: Sys, f: nat)
    requires Safe(s) && UserFrame(s, f)
    ensures Safe(AddReference(s, f)) && Views(AddReference(s, f)) == Views(s)
  {
    hide Leaf; hide Mappers; hide Table;
    var s' := AddReference(s, f);
    SameMappers(s, s');
    forall r: nat ensures View(s', r) == View(s, r) {
    }
  }

  lemma CountedCowSafe(s: Sys, n: nat)
    requires Safe(s) && CanResolve(s, n)
    ensures var s' := CountedCowFault(s, n);
            Safe(s') && Views(s') == Views(s) && Accounted(s, s', true)
  {
    hide Leaf; hide CowFault; hide Mappers; hide Linked; hide KernelHalfShared; hide LeavesOwned; hide Accounted;
    CowFaultSafe(s, n);
    if InfoAt(s.info, Leaf(s.mem, s.cur, n).frame).refcount <= 1 {
      CowInPlaceFacts(s, n);
      SameFrameMappers(s, CowFault(s, n), s.cur, n, Unshared(Leaf(s.mem, s.cur, n), Leaf(s.mem, s.cur, n).frame));
      SameAccount(s, CowFault(s, n));
    } else {
      CountedCopyAccount(s, n);
      CowCopyFacts(s, n);
      AddReferenceSafe(CowFault(s, n), FindFree(s.info));
    }
  }

  /** With the copy counted, resolving a page keeps exact counts exact, in place or by copy. */
  lemma CountedCowExact(s: Sys, n: nat)
    requires Safe(s) && Exact(s) && CanResolve(s, n)
    ensures Exact(CountedCowFault(s, n))
  {
    hide Safe; hide Exact; hide CanResolve; hide CountedCowFault; hide Accounted;
    CountedCowSafe(s, n);
    AccountedExact(s, CountedCowFault(s, n), true);
  }

  // ---------------------------------------------------------------------------------
  // Whole runs
  // ---------------------------------------------------------------------------------

  ghost predicate AllGentleCounted(w: World, steps: seq<Step>)
    decreases |steps|
  {
    steps == [] || (Gentle(w, steps[0]) && AllGentleCounted(ExecCounted(w, steps[0]), steps[1..]))
  }

  /** Every step of the counted machine accounts for its references, but for a fault that maps
      over a page. */
  lemma CountedStepAccount(w: World, st: Step)
    requires WorldInv(w) && Possible(w, st)
    ensures Accounted(w.sys, ExecCounted(w, st).sys, Gentle(w, st))
  {
    hide ExecCounted; hide Possible; hide Gentle; hide Accounted; hide WorldInv;
    match st
    case Write(r, n, i, v) => WriteCase(w, r, n, i, v);
    case Cow(r, addr) => CowCase(w, r, addr);
    case Fault(r, addr) => FaultCase(w, r, addr);
    case Spawn(r) => SpawnCase(w, r);
    case KernelPage => KernelCase(w);
  }

  lemma WriteCase(w: World, r: nat, n: nat, i: nat, v: Word)
    requires WorldInv(w) && Possible(w, Write(r, n, i, v))
    ensures Accounted(w.sys, ExecCounted(w, Write(r, n, i, v)).sys, Gentle(w, Write(r, n, i, v)))
  {
    hide Accounted; hide UserWrite; hide CanWrite; hide StacksMapped; hide Inv;
    WriteAccount(w.sys, r, n, i, v);
  }

  lemma CowCase(w: World, r: nat, addr: nat)
    requires WorldInv(w) && Possible(w, Cow(r, addr))
    ensures Accounted(w.sys, ExecCounted(w, Cow(r, addr)).sys, Gentle(w, Cow(r, addr)))
  {
    hide Accounted; hide CountedCowFault; hide WorldInv;
    CowAccount(w, r, addr);
  }

  lemma FaultCase(w: World, r: nat, addr: nat)
    requires WorldInv(w) && Possible(w, Fault(r, addr))
    ensures Accounted(w.sys, ExecCounted(w, Fault(r, addr)).sys, Gentle(w, Fault(r, addr)))
  {
    hide Accounted; hide DemandFault; hide CanFault; hide Kills; hide FaultSize; hide RangeUnmapped; hide StacksMapped; hide Inv;
    DemandFaultAccount(w.sys, r, w.procs[r], addr / PAGE_SIZE);
  }

  lemma SpawnCase(w: World, r: nat)
    requires WorldInv(w) && Possible(w, Spawn(r))
    ensures Accounted(w.sys, ExecCounted(w, Spawn(r)).sys, Gentle(w, Spawn(r)))
  {
    hide Accounted; hide Fork.Fork; hide CanFork; hide StacksMapped; hide Inv;
    ForkAccount(w.sys, r, w.procs[r]);
  }

  lemma KernelCase(w: World)
    requires WorldInv(w) && Possible(w, KernelPage)
    ensures Accounted(w.sys, ExecCounted(w, KernelPage).sys, Gentle(w, KernelPage))
  {
    hide Accounted; hide Malloc; hide CanMalloc; hide StacksMapped; hide Inv;
    MallocAccount(w.sys);
  }

  lemma WriteAccount(s: Sys, r: nat, n: nat, i: nat, v: Word)
    requires Inv(s) && CanWrite(s, r, n, i)
    ensures Accounted(s, UserWrite(s, r, n, i, v), true)
  {
    hide Inv; hide Leaf; hide Accounted; hide Mappers; hide UserWrite; hide Views; hide CanWrite;
    UserWriteFacts(s, r, n, i, v);
    SameLeaves(s, UserWrite(s, r, n, i, v));
    SameAccount(s, UserWrite(s, r, n, i, v));
  }

  lemma MallocAccount(s: Sys)
    requires Inv(s) && CanMalloc(s)
    ensures Accounted(s, Malloc(s), true)
  {
    hide Inv; hide Leaf; hide Accounted; hide Mappers; hide Malloc; hide Views; hide CanMalloc;
    MallocFacts(s);
    SameLeaves(s, Malloc(s));
    SameAccount(s, Malloc(s));
  }

  lemma CowAccount(w: World, r: nat, addr: nat)
    requires WorldInv(w) && Possible(w, Cow(r, addr))
    ensures Accounted(w.sys, CountedCowFault(w.sys.(cur := r), addr / PAGE_SIZE), true)
  {
    var s := w.sys;
    assert IsRoot(s.role, r) && Inv(s) && Safe(s);
    hide CountedCowFault; hide Mappers; hide Leaf; hide Views; hide Accounted; hide Inv; hide Safe;
    SameButCur(s, r);
    SameAccount(s, s.(cur := r));
    CountedCowSafe(s.(cur := r), addr / PAGE_SIZE);
    AccountedJoin(s, s.(cur := r), CountedCowFault(s.(cur := r), addr / PAGE_SIZE), true, true);
  }

  lemma CountedStepRefines(w: World, st: Step)
    requires WorldInv(w) && Strict(w.sys) && Possible(w, st)
    ensures var w' := ExecCounted(w, st);
            && WorldInv(w') && Strict(w'.sys) && EagerStep(Observed(w), st, Observed(w'))
            && Accounted(w.sys, w'.sys, Gentle(w, st))
  {
    var s := w.sys;
    assert Inv(s);
    hide Safe; hide StacksMapped; hide Strict; hide Leaf; hide EagerStep; hide Views; hide Inv; hide Accounted; hide Gentle;
    CountedStepAccount(w, st);
    AccountedStrict(s, ExecCounted(w, st).sys, Gentle(w, st));
    match st
    case Cow(r, addr) =>
      hide CountedCowFault;
      CountedCowRefines(w, r, addr);
    case Spawn(r) =>
      SpawnRoot(s, r, w.procs[r]);
      assert AllMapped(s, r, PagesOf(w.procs[r]));
      hide Fork.Fork; hide CanFork; hide AllMapped; hide CountedPages;
      StrictIsCounted(s, r, PagesOf(w.procs[r]));
      StepRefines(w, st);
    case _ =>
      hide Exec; hide Enabled;
      StepRefines(w, st);
  }

  lemma CountedCowRefines(w: World, r: nat, addr: nat)
    requires WorldInv(w) && Possible(w, Cow(r, addr))
    ensures var w' := ExecCounted(w, Cow(r, addr)); WorldInv(w') && Observed(w') == Observed(w)
  {
    var s := w.sys;
    assert IsRoot(s.role, r) && Inv(s) && Safe(s);
    hide CountedCowFault; hide Mappers; hide Leaf; hide Views; hide Accounted; hide Inv; hide Safe;
    SameButCur(s, r);
    CountedCowSafe(s.(cur := r), addr / PAGE_SIZE);
  }

  /** With copies counted, copy-on-write refines eager copying over every run that memory
      lasts for, with no condition on what a process has done before it forks; and all slack in
      the counts is due to faults that map over a page. */
  lemma {:induction false} CountedRunRefines(w: World, steps: seq<Step>)
    requires WorldInv(w) && Strict(w.sys) && AllPossible(w, steps)
    ensures var w' := ExecCountedAll(w, steps);
            && WorldInv(w') && Strict(w'.sys) && EagerRun(Observed(w), steps, Observed(w'))
            && Accounted(w.sys, w'.sys, AllGentleCounted(w, steps))
    decreases |steps|
  {
    hide WorldInv; hide Possible; hide ExecCounted; hide EagerStep; hide Observed; hide Strict; hide Accounted; hide Gentle;
    hide Mappers;
    if steps == [] {
      SameAccount(w.sys, w.sys);
    } else {
      var w1 := ExecCounted(w, steps[0]);
      CountedStepRefines(w, steps[0]);
      CountedRunRefines(w1, steps[1..]);
      AccountedJoin(w.sys, w1.sys, ExecCountedAll(w1, steps[1..]).sys, Gentle(w, steps[0]), AllGentleCounted(w1, steps[1..]));
    }
  }

  /** Reference accounting over whole runs: exact counts stay exact if and only if no fault of the
      run maps over a page. */
  lemma CountedRunExactIff(w: World, steps: seq<Step>)
    requires WorldInv(w) && Exact(w.sys) && AllPossible(w, steps)
    ensures Exact(ExecCountedAll(w, steps).sys) <==> AllGentleCounted(w, steps)
  {
    ExactIsStrict(w.sys);
    hide WorldInv; hide AllPossible; hide ExecCountedAll; hide Strict; hide Exact; hide Accounted; hide AllGentleCounted;
    CountedRunRefines(w, steps);
    AccountedExact(w.sys, ExecCountedAll(w, steps).sys, AllGentleCounted(w, steps));
  }

  lemma ExactIsStrict(s: Sys)
    requires Exact(s)
    ensures Strict(s)
  {
    hide Mappers;
  }
}
