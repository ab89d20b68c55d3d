/**
  The end of a process: its address space torn down (free_task_memory in
  src/kernel/drivers/Userland/Tasks.c), and what that leaves to the others.
 */
module Exits {
  import opened Words
  import opened PageTables
  import opened AddressSpace
  import opened CopyOnWrite
  import opened Teardown

  /** free_task_memory on states: the tables emptied, the root an ordinary frame of the kernel's,
      and another root active if the dying one was. */
  ghost function Exit(s: Sys, root: nat, kernelRoot: nat): Sys {
    s.(mem := Torn(s.mem, root), role := SetRole(s.role, root, Plain), cur := if s.cur == root then kernelRoot else s.cur)
  }

  ghost predicate CanExit(s: Sys, root: nat, kernelRoot: nat) {
    IsRoot(s.role, root) && IsRoot(s.role, kernelRoot) && kernelRoot != root
  }

  /** The frames that teardown empties are tables of the dying address space. */
  lemma TornFrames(s: Sys, root: nat)
    requires Inv(s) && IsRoot(s.role, root)
    ensures var m := Torn(s.mem, root);
            && |m| == |s.mem| && m[root] == Zeros()
            && forall f: nat :: f < |m| && f != root && m[f] != s.mem[f] ==>
                 && s.role[f].Tab? && s.role[f].owner == Space(root) && 2 <= s.role[f].level <= 3 && |m[f]| == ENTRIES
                 && forall i :: 0 <= i < ENTRIES ==> !m[f][i].p
  {
    hide LeavesOwned; hide KernelHalfShared;
    var m := Torn(s.mem, root);
    forall f: nat | f < |m| && f != root && m[f] != s.mem[f]
      ensures s.role[f].Tab? && s.role[f].owner == Space(root) && 2 <= s.role[f].level <= 3 {
      OwnedTables(s.mem, s.role, root, f);
    }
  }

  lemma ExitTree(s: Sys, root: nat)
    requires Inv(s) && IsRoot(s.role, root)
    ensures Tree(Torn(s.mem, root), SetRole(s.role, root, Plain))
  {
    TornFrames(s, root);
    hide LeavesOwned; hide KernelHalfShared; hide Torn; hide FramesTyped; hide Linked;
    EmptiedTree(s.mem, Torn(s.mem, root), s.role, root);
  }

  /** Taking a root and present entries away leaves a tree. */
  lemma EmptiedTree(m0: Mem, m: Mem, role: seq<Role>, root: nat)
    requires Tree(m0, role) && IsRoot(role, root) && |m| == |m0| && m[root] == Zeros()
    requires forall f: nat :: f < |m| && f != root && m[f] != m0[f] ==>
               |m[f]| == ENTRIES && forall i :: 0 <= i < ENTRIES ==> !m[f][i].p
    ensures Tree(m, SetRole(role, root, Plain))
  {
    var role': seq<Role> := SetRole(role, root, Plain);
    forall f, i | 0 <= f < |m| && 0 <= i < ENTRIES && role'[f].Tab? && role'[f].level > 1 && m[f][i].p
      ensures m[f][i].frame < |m| && role'[m[f][i].frame] == ChildRole(role'[f], i)
    {
      assert m[f] == m0[f];
    }
  }

  lemma ExitInv(s: Sys, root: nat, kernelRoot: nat)
    requires Inv(s) && CanExit(s, root, kernelRoot)
    ensures var s' := Exit(s, root, kernelRoot);
            && Inv(s') && DataKept(s, s') && s'.info == s.info
            && forall r: nat :: IsRoot(s'.role, r) <==> IsRoot(s.role, r) && r != root
  {
    hide Torn; hide Tree;
    ExitTree(s, root);
    ExitOwned(s, root, kernelRoot);
    TornFrames(s, root);
    hide LeavesOwned;
    var s' := Exit(s, root, kernelRoot);
    forall r: nat | IsRoot(s'.role, r) ensures s'.mem[r] == s.mem[r] {
    }
  }

  lemma ExitOwned(s: Sys, root: nat, kernelRoot: nat)
    requires Inv(s) && CanExit(s, root, kernelRoot)
    ensures Shaped(Exit(s, root, kernelRoot).mem, Exit(s, root, kernelRoot).role) && LeavesOwned(Exit(s, root, kernelRoot))
  {
    ExitTree(s, root);
    hide Torn; hide Linked; hide KernelHalfShared;
    TornFrames(s, root);
    var s' := Exit(s, root, kernelRoot);
    forall f, i | 0 <= f < |s.mem| && 0 <= i < ENTRIES && IsUserPT(s'.role[f]) && s'.mem[f][i].p
      ensures UserFrame(s', s'.mem[f][i].frame)
    {
      assert s'.mem[f] == s.mem[f];
      assert UserFrame(s, s.mem[f][i].frame);
    }
  }

  lemma ExitLeaves(s: Sys, root: nat, kernelRoot: nat)
    requires Inv(s) && CanExit(s, root, kernelRoot)
    ensures var s' := Exit(s, root, kernelRoot);
            forall r: nat, n :: IsRoot(s.role, r) && r != root && 0 <= n < ALL_PAGES ==> Leaf(s'.mem, r, n) == Leaf(s.mem, r, n)
  {
    hide Leaf; hide LeavesOwned; hide KernelHalfShared; hide Cleared; hide Torn; hide Pdpts; hide Pds;
    TornIsCleared(s.mem, Torn(s.mem, root), s.role, root);
    TeardownIsLocal(s.mem, Torn(s.mem, root), s.role, root);
  }

  /** The pages of an address space that are mappings of frame f. */
  ghost function OwnMappers(s: Sys, r: nat, f: nat): set<(nat, nat)> {
    set n: nat | n < USER_PAGES && Maps(s, r, n, f) :: (r, n)
  }

  lemma ExitMappers(s: Sys, root: nat, kernelRoot: nat, f: nat)
    requires Inv(s) && CanExit(s, root, kernelRoot)
    ensures Mappers(Exit(s, root, kernelRoot), f) == Mappers(s, f) - OwnMappers(s, root, f)
    ensures OwnMappers(s, root, f) <= Mappers(s, f)
  {
    ExitLeaves(s, root, kernelRoot);
    ExitInv(s, root, kernelRoot);
    var s' := Exit(s, root, kernelRoot);
    hide Leaf; hide Exit; hide Inv;
    forall r: nat, n: nat | n < USER_PAGES ensures Maps(s', r, n, f) <==> Maps(s, r, n, f) && r != root {
      if IsRoot(s.role, r) && r != root {
        assert Leaf(s'.mem, r, n) == Leaf(s.mem, r, n);
      }
    }
    assert forall r: nat, n: nat :: (r, n) in OwnMappers(s, root, f) <==> r == root && n < USER_PAGES && Maps(s, root, n, f);
  }

  lemma ExitViews(s: Sys, root: nat, kernelRoot: nat)
    requires Inv(s) && CanExit(s, root, kernelRoot)
    ensures Views(Exit(s, root, kernelRoot)) == Views(s) - {root}
  {
    hide Leaf; hide Torn; hide View; hide Views; hide Inv; hide DataKept;
    ExitLeaves(s, root, kernelRoot);
    ExitInv(s, root, kernelRoot);
    var s' := Exit(s, root, kernelRoot);
    assert |s'.role| == |s.role|;
    forall r: nat | IsRoot(s.role, r) && r != root ensures View(s', r) == View(s, r) {
      SameView(s, s', r);
    }
    hide Exit;
    ViewsShrink(s, s', root);
  }

  lemma ViewsShrink(s: Sys, s': Sys, root: nat)
    requires |s'.role| == |s.role| && forall r: nat :: IsRoot(s'.role, r) <==> IsRoot(s.role, r) && r != root
    requires forall r: nat :: IsRoot(s.role, r) && r != root ==> View(s', r) == View(s, r)
    ensures Views(s') == Views(s) - {root}
  {
    hide View;
  }

  /** The end of a process keeps the machine safe, and every other process what it had. */
  lemma ExitSafe(s: Sys, root: nat, kernelRoot: nat)
    requires Safe(s) && CanExit(s, root, kernelRoot)
    ensures var s' := Exit(s, root, kernelRoot);
            && Safe(s') && Views(s') == Views(s) - {root}
            && forall r: nat :: IsRoot(s'.role, r) <==> IsRoot(s.role, r) && r != root
  {
    hide Leaf; hide Torn; hide Inv; hide Views; hide Mappers; hide OwnMappers; hide DataKept;
    ExitInv(s, root, kernelRoot);
    ExitViews(s, root, kernelRoot);
    var s' := Exit(s, root, kernelRoot);
    assert |s'.info| == |s.info|;
    hide Exit;
    forall f ensures |Mappers(s', f)| <= |Mappers(s, f)| {
      ExitMappers(s, root, kernelRoot, f);
      SubsetSize(Mappers(s', f), Mappers(s, f));
    }
    ExitExclusive(s, root, kernelRoot);
  }

  lemma ExitExclusive(s: Sys, root: nat, kernelRoot: nat)
    requires Inv(s) && Exclusive(s) && CanExit(s, root, kernelRoot)
    ensures Exclusive(Exit(s, root, kernelRoot))
  {
    hide Leaf; hide Torn; hide Inv; hide Mappers; hide DataKept;
    ExitInv(s, root, kernelRoot);
    ExitLeaves(s, root, kernelRoot);
    var s' := Exit(s, root, kernelRoot);
    hide Exit;
    forall r: nat, n: nat | IsRoot(s'.role, r) && n < USER_PAGES && Leaf(s'.mem, r, n).p && Leaf(s'.mem, r, n).w
      ensures Mappers(s', Leaf(s'.mem, r, n).frame) == {(r, n)}
    {
      assert Leaf(s'.mem, r, n) == Leaf(s.mem, r, n);
      ExitMappers(s, root, kernelRoot, Leaf(s.mem, r, n).frame);
      assert (r, n) !in OwnMappers(s, root, Leaf(s.mem, r, n).frame);
    }
  }

  // ---------------------------------------------------------------------------------
  // Reference accounting
  // ---------------------------------------------------------------------------------

  ghost predicate MapsNothing(s: Sys, r: nat) {
    forall n: nat :: n < USER_PAGES ==> !Leaf(s.mem, r, n).p
  }

  lemma ExitSlack(s: Sys, root: nat, kernelRoot: nat, f: nat)
    requires Inv(s) && CanExit(s, root, kernelRoot) && f < |s.info|
    ensures Slack(Exit(s, root, kernelRoot), f) == Slack(s, f) + |OwnMappers(s, root, f)|
  {
    ExitMappers(s, root, kernelRoot, f);
    hide Mappers; hide OwnMappers;
    assert |Mappers(s, f) - OwnMappers(s, root, f)| == |Mappers(s, f)| - |OwnMappers(s, root, f)|;
  }

  /** Teardown drops no reference: the frames of the dead process keep theirs. */
  lemma ExitAccount(s: Sys, root: nat, kernelRoot: nat)
    requires Inv(s) && CanExit(s, root, kernelRoot)
    ensures Accounted(s, Exit(s, root, kernelRoot), MapsNothing(s, root))
  {
    hide Slack; hide OwnMappers; hide Torn; hide Inv; hide Leaf; hide MapsNothing; hide CanExit;
    var s' := Exit(s, root, kernelRoot);
    assert |s'.info| == |s.info|;
    hide Exit;
    forall f: nat | f < |s.info| ensures Slack(s', f) == Slack(s, f) + |OwnMappers(s, root, f)| {
      ExitSlack(s, root, kernelRoot, f);
    }
    if MapsNothing(s, root) {
      NoOwnMappers(s, root);
    } else {
      var f := SomeOwnMapper(s, root, kernelRoot);
      assert Slack(s', f) != Slack(s, f);
    }
  }

  lemma NoOwnMappers(s: Sys, root: nat)
    requires MapsNothing(s, root)
    ensures forall f :: OwnMappers(s, root, f) == {}
  {
  }

  lemma SomeOwnMapper(s: Sys, root: nat, kernelRoot: nat) returns (f: nat)
    requires Inv(s) && CanExit(s, root, kernelRoot) && !MapsNothing(s, root)
    ensures f < |s.info| && |OwnMappers(s, root, f)| > 0
  {
    hide Leaf;
    var n: nat :| n < USER_PAGES && Leaf(s.mem, root, n).p;
    MappedFrame(s, root, n);
    f := Leaf(s.mem, root, n).frame;
    assert (root, n) in OwnMappers(s, root, f);
  }

  /** Reference accounting: the end of a process keeps exact counts exact if and only if it mapped
      nothing. */
  lemma ExitExactIff(s: Sys, root: nat, kernelRoot: nat)
    requires Inv(s) && Exact(s) && CanExit(s, root, kernelRoot)
    ensures Exact(Exit(s, root, kernelRoot)) <==> MapsNothing(s, root)
  {
    hide Inv; hide Exact; hide Exit; hide Accounted; hide MapsNothing;
    ExitAccount(s, root, kernelRoot);
    AccountedExact(s, Exit(s, root, kernelRoot), MapsNothing(s, root));
  }
}
