/**
  The direct map and the kernel heap (src/kernel/drivers/LowLevel/Memory.c).  The kernel reaches
  frame f at VIRTUAL_MEMORY_BARRIER plus its address; its heap starts from the same base, so that
  the heap's next page is the direct map's page of some frame.
 */
module DirectMap {
  import opened Wrappers
  import opened PageTables
  import opened AddressSpace
  import opened Fork

  /** Reading or writing frame f through the direct map reaches frame f. */
  predicate DirectMapped(s: Sys, f: nat) {
    var w := Leaf(s.mem, s.cur, USER_PAGES + f);
    w.p && w.frame == f
  }

  /** The frame whose direct-map page the heap takes next. */
  function HeapFrame(s: Sys): nat {
    s.kpages + 1
  }

  /** malloc keeps the direct map of every other frame, and that of the heap's next page exactly
      when the frame it takes has that number. */
  lemma MallocDirectMap(s: Sys, f: nat)
    requires Inv(s) && CanMalloc(s) && USER_PAGES + f < ALL_PAGES
    ensures DirectMapped(Malloc(s), f) <==>
              if f == HeapFrame(s) then FindFree(s.info) == HeapFrame(s) else DirectMapped(s, f)
  {
    hide Leaf; hide Malloc; hide FindFree; hide Inv; hide OthersKept; hide UserLeavesKept; hide Free;
    assert IsRoot(s.role, s.cur) by {
      CurIsRoot(s);
    }
    MallocKeeps(s);
  }

  lemma CurIsRoot(s: Sys)
    requires Inv(s)
    ensures IsRoot(s.role, s.cur)
  {
  }

  /** malloc keeps the whole direct map if and only if the heap's next page lies outside it or is
      to be backed by the very frame that it stands for there. */
  lemma MallocKeepsDirectMapIff(s: Sys)
    requires Inv(s) && CanMalloc(s)
    ensures (forall f: nat :: USER_PAGES + f < ALL_PAGES && DirectMapped(s, f) ==> DirectMapped(Malloc(s), f)) <==>
              !DirectMapped(s, HeapFrame(s)) || FindFree(s.info) == HeapFrame(s)
  {
    assert USER_PAGES + HeapFrame(s) < ALL_PAGES;
    hide Malloc; hide FindFree; hide Inv; hide DirectMapped; hide CanMalloc;
    forall f: nat | USER_PAGES + f < ALL_PAGES
      ensures DirectMapped(Malloc(s), f) <==>
                if f == HeapFrame(s) then FindFree(s.info) == HeapFrame(s) else DirectMapped(s, f)
    {
      MallocDirectMap(s, f);
    }
  }

  lemma MallocFree(s: Sys)
    requires Inv(s) && CanMalloc(s)
    ensures Free(Malloc(s).info) <= Free(s.info) && FindFree(s.info) in Free(s.info)
    ensures Inv(Malloc(s)) && Malloc(s).kpages == s.kpages + 1 && Malloc(s).cur == s.cur
  {
    hide Malloc; hide LeavesOwned; hide KernelHalfShared; hide Linked; hide Leaf;
    MallocKeeps(s);
    var s' := Malloc(s);
    var f := FindFree(s.info);
    hide FindFree;
    forall g | g in Free(s'.info) ensures g in Free(s.info) {
      if g != f {
        assert Kept(s, s', g);
      }
    }
  }

  /** Allocating k heap pages in a row leaves the direct map of a frame they pass over only if that
      frame was free: a frame in use is from then on out of the direct map's reach. */
  lemma {:induction false} MallocTimesDirectMap(s: Sys, k: nat, f: nat)
    requires Inv(s) && MallocFits(s, k) && USER_PAGES + f < ALL_PAGES
    ensures Inv(MallocTimes(s, k)) && MallocTimes(s, k).cur == s.cur
    ensures HeapFrame(s) <= f < HeapFrame(s) + k && DirectMapped(MallocTimes(s, k), f) ==> f in Free(s.info)
    ensures !(HeapFrame(s) <= f < HeapFrame(s) + k) ==> (DirectMapped(MallocTimes(s, k), f) <==> DirectMapped(s, f))
    decreases k
  {
    hide Malloc; hide Inv; hide CanMalloc; hide DirectMapped; hide Free; hide FindFree;
    if k > 0 {
      MallocFree(s);
      MallocDirectMap(s, f);
      MallocTimesDirectMap(Malloc(s), k - 1, f);
    }
  }

  // ---------------------------------------------------------------------------------
  // Walks through the direct map
  // ---------------------------------------------------------------------------------

  /** The frame that the kernel reaches when it means frame f. */
  function Reached(s: Sys, f: nat): nat {
    Leaf(s.mem, s.cur, USER_PAGES + f).frame
  }

  /** The table that the kernel comes to when it follows a walk through the direct map. */
  function DirectTable(s: Sys, n: nat, level: nat): Option<nat>
    requires 1 <= level <= 4
    decreases 4 - level
  {
    if level == 4 then Some(s.cur)
    else
      match DirectTable(s, n, level + 1)
      case None => None
      case Some(t) =>
        var w := Peek(s.mem, Reached(s, t), Index(n, level + 1));
        if w.p then Some(w.frame) else None
  }

  /** As long as the tables on the way are directly mapped, that is the walk itself. */
  lemma {:induction false} DirectWalkIsWalk(s: Sys, n: nat, level: nat)
    requires 1 <= level <= 4
    requires forall l :: level < l <= 4 && Table(s.mem, s.cur, n, l).Some? ==> DirectMapped(s, Table(s.mem, s.cur, n, l).value)
    ensures DirectTable(s, n, level) == Table(s.mem, s.cur, n, level)
    decreases 4 - level
  {
    hide Leaf;
    if level < 4 {
      DirectWalkIsWalk(s, n, level + 1);
    }
  }
}
