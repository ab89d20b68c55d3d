/**
  Tearing down a user address space: what the nested clearing loops of free_task_memory
  leave behind (src/kernel/drivers/Userland/Tasks.c).
 */
module Teardown {
  import opened Words
  import opened PageTables

  /** The first slot with a present entry, or the table's size. */
  function FirstPresentFrom(t: seq<Word>, k: nat): (i: nat)
    ensures k <= |t| ==> k <= i <= |t| && (i < |t| ==> t[i].p) && forall j :: k <= j < i ==> !t[j].p
    decreases |t| - k
  {
    if k >= |t| then k
    else if t[k].p then k
    else FirstPresentFrom(t, k + 1)
  }

  function FirstPresent(t: seq<Word>): nat {
    FirstPresentFrom(t, 0)
  }

  ghost predicate NonePresent(t: seq<Word>) {
    forall i :: 0 <= i < |t| ==> !t[i].p
  }

  /** How many entries are present: what each clearing step decreases. */
  function PresentCount(t: seq<Word>): nat {
    if t == [] then 0 else (if t[0].p then 1 else 0) + PresentCount(t[1..])
  }

  lemma {:induction false} ClearOneCounts(t: seq<Word>, i: nat)
    requires i < |t| && t[i].p
    ensures PresentCount(t[i := ZERO]) < PresentCount(t)
  {
    if i > 0 {
      assert t[i := ZERO][1..] == t[1..][i - 1 := ZERO];
      ClearOneCounts(t[1..], i - 1);
    } else {
      assert t[i := ZERO][1..] == t[1..];
    }
  }

  /** The frames named by the present entries of the first `slots` slots of frame t. */
  ghost function Children(m: Mem, t: nat, slots: nat): set<nat> {
    set i | 0 <= i < slots && Peek(m, t, i).p :: Peek(m, t, i).frame
  }

  /** All second-level tables below the given third-level ones. */
  ghost function Grandchildren(m: Mem, tables: set<nat>): set<nat> {
    set t, i | t in tables && 0 <= i < ENTRIES && Peek(m, t, i).p :: Peek(m, t, i).frame
  }

  /** Frame f is as before, or its present entries are gone. */
  ghost predicate ClearedIn(m0: Mem, m: Mem, f: nat)
    requires f < |m0| == |m|
  {
    |m[f]| == |m0[f]| && forall i :: 0 <= i < |m0[f]| ==> m[f][i] == if m0[f][i].p then ZERO else m0[f][i]
  }

  /** From m0 to m exactly the frames in S lost their present entries. */
  ghost predicate Cleared(m0: Mem, m: Mem, S: set<nat>) {
    && |m| == |m0|
    && forall f :: 0 <= f < |m0| ==> if f in S then ClearedIn(m0, m, f) else m[f] == m0[f]
  }

  /** The tables a user address space owns below its root, by level. */
  ghost function Pdpts(m: Mem, root: nat): set<nat> {
    Children(m, root, KERNEL_SLOT)
  }

  ghost function Pds(m: Mem, root: nat): set<nat> {
    Grandchildren(m, Pdpts(m, root))
  }

  /** A table without its present entries. */
  function Emptied(t: seq<Word>): (r: seq<Word>)
    ensures |r| == |t|
  {
    seq(|t|, i requires 0 <= i < |t| => if t[i].p then ZERO else t[i])
  }

  /** Memory after teardown: the root wiped, the tables of the two levels below it emptied. */
  ghost function Torn(m: Mem, root: nat): Mem {
    seq<seq<Word>>(|m|, f requires 0 <= f < |m| =>
      if f == root then Zeros() else if f in Pdpts(m, root) + Pds(m, root) then Emptied(m[f]) else m[f])
  }

  lemma TornIsCleared(m0: Mem, m: Mem, role: seq<Role>, root: nat)
    requires Tree(m0, role) && IsRoot(role, root)
    ensures Cleared(m0[root := Zeros()], m, Pdpts(m0, root) + Pds(m0, root)) && m[root] == Zeros() <==> m == Torn(m0, root)
  {
    forall f | f in Pdpts(m0, root) + Pds(m0, root) ensures f < |m0| && f != root {
      OwnedTables(m0, role, root, f);
    }
    hide Pdpts; hide Pds; hide Tree;
    var t := Torn(m0, root);
    if m == t {
      forall f | 0 <= f < |m0| && f in Pdpts(m0, root) + Pds(m0, root) ensures ClearedIn(m0[root := Zeros()], m, f) {
      }
    }
    if Cleared(m0[root := Zeros()], m, Pdpts(m0, root) + Pds(m0, root)) && m[root] == Zeros() {
      forall f | 0 <= f < |m0| ensures m[f] == t[f] {
        if f in Pdpts(m0, root) + Pds(m0, root) {
          assert ClearedIn(m0[root := Zeros()], m, f);
          assert m[f] == Emptied(m0[f]);
        }
      }
      assert m == t;
    }
  }

  lemma PdptRole(m: Mem, role: seq<Role>, root: nat, i: nat)
    requires Tree(m, role) && IsRoot(role, root) && i < KERNEL_SLOT && m[root][i].p
    ensures m[root][i].frame < |m| && role[m[root][i].frame] == Tab(Space(root), 3, i)
  {
  }

  lemma PdRole(m: Mem, role: seq<Role>, root: nat, i: nat, t: nat, j: nat)
    requires Tree(m, role) && t < |m| && role[t] == Tab(Space(root), 3, i) && j < ENTRIES && m[t][j].p
    ensures m[t][j].frame < |m| && role[m[t][j].frame] == Tab(Space(root), 2, i * ENTRIES + j)
  {
  }

  /** Everything teardown clears belongs to the dying address space. */
  lemma OwnedTables(m: Mem, role: seq<Role>, root: nat, f: nat)
    requires Tree(m, role) && IsRoot(role, root) && (f in Pdpts(m, root) || f in Pds(m, root))
    ensures f < |m| && role[f].Tab? && role[f].owner == Space(root) && 2 <= role[f].level <= 3
  {
    if f in Pdpts(m, root) {
      var i :| 0 <= i < KERNEL_SLOT && Peek(m, root, i).p && Peek(m, root, i).frame == f;
      PdptRole(m, role, root, i);
    } else {
      var t, j :| t in Pdpts(m, root) && 0 <= j < ENTRIES && Peek(m, t, j).p && Peek(m, t, j).frame == f;
      var i :| 0 <= i < KERNEL_SLOT && Peek(m, root, i).p && Peek(m, root, i).frame == t;
      PdptRole(m, role, root, i);
      PdRole(m, role, root, i, t, j);
    }
  }

  /** Memory that differs only in tables of `root` gives every other root the same walks. */
  lemma {:induction false} OtherWalks(m0: Mem, m: Mem, role: seq<Role>, root: nat, r: nat, n: nat, level: nat)
    requires Tree(m0, role) && IsRoot(role, r) && r != root && n < ALL_PAGES && 1 <= level <= 4 && |m| == |m0|
    requires forall f :: 0 <= f < |m0| && !(role[f].Tab? && role[f].owner == Space(root)) ==> m[f] == m0[f]
    ensures Table(m, r, n, level) == Table(m0, r, n, level)
    decreases 4 - level
  {
    if level < 4 {
      OtherWalks(m0, m, role, root, r, n, level + 1);
      TableRole(m0, role, r, n, level + 1);
    }
  }

  /** Teardown is invisible elsewhere: clearing the tables of one address space, and wiping its
      root, leaves every translation of every other address space as it was, and leaves its own
      user half and kernel half untranslated. */
  lemma TeardownIsLocal(m0: Mem, m: Mem, role: seq<Role>, root: nat)
    requires Tree(m0, role) && IsRoot(role, root)
    requires Cleared(m0[root := Zeros()], m, Pdpts(m0, root) + Pds(m0, root)) && m[root] == Zeros()
    ensures forall r: nat, n :: IsRoot(role, r) && r != root && 0 <= n < ALL_PAGES ==> Leaf(m, r, n) == Leaf(m0, r, n)
    ensures forall n :: 0 <= n < ALL_PAGES ==> Leaf(m, root, n) == ZERO
    ensures forall f :: f in Pdpts(m0, root) + Pds(m0, root) ==> f < |m| && NonePresent(m[f])
  {
    forall f | f in Pdpts(m0, root) + Pds(m0, root)
      ensures f < |m| && role[f].Tab? && role[f].owner == Space(root) && NonePresent(m[f])
    {
      OwnedTables(m0, role, root, f);
      assert ClearedIn(m0[root := Zeros()], m, f);
    }
    forall r: nat, n | IsRoot(role, r) && r != root && 0 <= n < ALL_PAGES ensures Leaf(m, r, n) == Leaf(m0, r, n) {
      OtherWalks(m0, m, role, root, r, n, 1);
      TableRole(m0, role, r, n, 1);
    }
    forall n | 0 <= n < ALL_PAGES ensures Leaf(m, root, n) == ZERO {
      assert Table(m, root, n, 3).None?;
      NoneBelow(m, root, n, 3);
    }
  }

  // ---------------------------------------------------------------------------------
  // One third-level table at a time
  // ---------------------------------------------------------------------------------

  /** The branch at user slot i of the root is as it was. */
  ghost predicate BranchIntact(m0: Mem, m: Mem, root: nat, i: nat) {
    && Peek(m, root, i) == Peek(m0, root, i)
    && (Peek(m0, root, i).p ==>
          var t := Peek(m0, root, i).frame;
          Content(m, t) == Content(m0, t) && forall c :: c in Children(m0, t, ENTRIES) ==> Content(m, c) == Content(m0, c))
  }

  /** The branch at user slot i has been cleared. */
  ghost predicate BranchGone(m0: Mem, m: Mem, root: nat, i: nat)
    requires |m| == |m0|
  {
    && Peek(m0, root, i).p && Peek(m, root, i) == ZERO
    && var t := Peek(m0, root, i).frame;
       forall f :: f == t || f in Children(m0, t, ENTRIES) ==> f < |m0| && ClearedIn(m0, m, f)
  }

  /** The tables of the branch at slot i. */
  ghost function BranchTables(m: Mem, root: nat, i: nat): set<nat> {
    if Peek(m, root, i).p then {Peek(m, root, i).frame} + Children(m, Peek(m, root, i).frame, ENTRIES) else {}
  }

  /** The part of the tree that a frame's role places under slot i of the root. */
  predicate Under(role: Role, root: nat, i: nat) {
    && role.Tab? && role.owner == Space(root)
    && ((role.level == 3 && role.prefix == i) || (role.level == 2 && role.prefix / ENTRIES == i))
  }

  lemma BranchRole(m: Mem, role: seq<Role>, root: nat, i: nat, f: nat)
    requires Tree(m, role) && IsRoot(role, root) && i < KERNEL_SLOT && f in BranchTables(m, root, i)
    ensures f < |m| && Under(role[f], root, i)
  {
    var t := Peek(m, root, i).frame;
    PdptRole(m, role, root, i);
    if f != t {
      var j :| 0 <= j < ENTRIES && Peek(m, t, j).p && Peek(m, t, j).frame == f;
      PdRole(m, role, root, i, t, j);
    }
  }

  /** Clearing one branch leaves the others, intact or gone, as they are. */
  lemma OtherBranch(m0: Mem, m1: Mem, m2: Mem, role: seq<Role>, root: nat, i: nat, k: nat)
    requires Tree(m0, role) && IsRoot(role, root) && i < KERNEL_SLOT && k < KERNEL_SLOT && k != i
    requires |m1| == |m0| == |m2|
    requires forall f :: 0 <= f < |m0| && f != root && f !in BranchTables(m0, root, i) ==> m2[f] == m1[f]
    requires Peek(m2, root, k) == Peek(m1, root, k)
    ensures BranchIntact(m0, m1, root, k) ==> BranchIntact(m0, m2, root, k)
    ensures BranchGone(m0, m1, root, k) ==> BranchGone(m0, m2, root, k)
  {
    forall f | f in BranchTables(m0, root, k) ensures f < |m0| && m2[f] == m1[f] {
      BranchRole(m0, role, root, k, f);
      if f in BranchTables(m0, root, i) {
        BranchRole(m0, role, root, i, f);
      }
    }
  }

  /** A branch whose slot is still present is intact, and ready for ClearPdpt. */
  lemma IntactBranch(m0: Mem, m1: Mem, role: seq<Role>, root: nat, i: nat)
    requires Tree(m0, role) && IsRoot(role, root) && i < KERNEL_SLOT && |m1| == |m0| && |m1[root]| == ENTRIES
    requires BranchIntact(m0, m1, root, i) || BranchGone(m0, m1, root, i)
    requires m1[root][i].p
    ensures BranchIntact(m0, m1, root, i) && m0[root][i].p && m1[root][i] == m0[root][i]
    ensures var t := m1[root][i].frame;
            && t < |m1| && t != root && |m1[t]| == ENTRIES && m1[t] == m0[t]
            && Children(m1, t, ENTRIES) == Children(m0, t, ENTRIES)
            && forall c :: c in Children(m1, t, ENTRIES) ==> c < |m1| && c != root && |m1[c]| == ENTRIES && c != t && m1[c] == m0[c]
  {
    var t := m1[root][i].frame;
    PdptRole(m0, role, root, i);
    forall c | c in Children(m0, t, ENTRIES) ensures c < |m0| && Under(role[c], root, i) && role[c].level == 2 {
      var j :| 0 <= j < ENTRIES && Peek(m0, t, j).p && Peek(m0, t, j).frame == c;
      PdRole(m0, role, root, i, t, j);
    }
    assert forall j :: 0 <= j < ENTRIES ==> Peek(m1, t, j) == Peek(m0, t, j);
  }

  /** ... and after ClearPdpt, once its slot is cleared too, gone. */
  lemma ClearedBranch(m0: Mem, m1: Mem, m2: Mem, role: seq<Role>, root: nat, i: nat)
    requires Tree(m0, role) && IsRoot(role, root) && i < KERNEL_SLOT && |m1| == |m0| && |m1[root]| == ENTRIES
    requires BranchIntact(m0, m1, root, i) && m0[root][i].p
    requires var t := m0[root][i].frame; Cleared(m1, m2, {t} + Children(m1, t, ENTRIES))
    ensures |m2| == |m1| && m2[root] == m1[root] && BranchTables(m0, root, i) <= Pdpts(m0, root) + Pds(m0, root)
    ensures BranchGone(m0, Poke(m2, root, i, ZERO), root, i)
    ensures forall f :: 0 <= f < |m0| && f != root && f !in BranchTables(m0, root, i) ==> m2[f] == m1[f]
  {
    IntactBranch(m0, m1, role, root, i);
    var t := m0[root][i].frame;
    assert Peek(m0, root, i).p;
    forall f | f == t || f in Children(m0, t, ENTRIES) ensures f < |m0| && f != root && ClearedIn(m0, m2, f) {
      assert ClearedIn(m1, m2, f) && m1[f] == m0[f];
    }
  }

  lemma AllIntact(m: Mem, root: nat)
    ensures forall k: nat :: BranchIntact(m, m, root, k)
  {
  }

  /** When no user slot is present any more, every table of the address space is cleared. */
  lemma AllGone(m0: Mem, m: Mem, role: seq<Role>, root: nat)
    requires Tree(m0, role) && IsRoot(role, root) && |m| == |m0|
    requires forall k :: 0 <= k < KERNEL_SLOT ==> BranchIntact(m0, m, root, k) || BranchGone(m0, m, root, k)
    requires forall k :: 0 <= k < KERNEL_SLOT ==> !Peek(m, root, k).p
    requires forall f :: 0 <= f < |m0| && f != root && f !in Pdpts(m0, root) + Pds(m0, root) ==> m[f] == m0[f]
    ensures forall f :: f in Pdpts(m0, root) + Pds(m0, root) ==> f < |m0| && f != root && ClearedIn(m0, m, f)
  {
    forall f | f in Pdpts(m0, root) + Pds(m0, root) ensures f < |m0| && f != root && ClearedIn(m0, m, f) {
      OwnedTables(m0, role, root, f);
      if f in Pdpts(m0, root) {
        var i :| 0 <= i < KERNEL_SLOT && Peek(m0, root, i).p && Peek(m0, root, i).frame == f;
        assert BranchGone(m0, m, root, i);
      } else {
        var t, j :| t in Pdpts(m0, root) && 0 <= j < ENTRIES && Peek(m0, t, j).p && Peek(m0, t, j).frame == f;
        var i :| 0 <= i < KERNEL_SLOT && Peek(m0, root, i).p && Peek(m0, root, i).frame == t;
        assert BranchGone(m0, m, root, i) && f in Children(m0, t, ENTRIES);
      }
    }
  }

  lemma WipedRoot(m0: Mem, m: Mem, root: nat)
    requires |m| == |m0| && root < |m0|
    requires forall f :: f in Pdpts(m0, root) + Pds(m0, root) ==> f < |m0| && f != root && ClearedIn(m0, m, f)
    requires forall f :: 0 <= f < |m0| && f != root && f !in Pdpts(m0, root) + Pds(m0, root) ==> m[f] == m0[f]
    ensures Cleared(m0[root := Zeros()], Fill(m, root, Zeros()), Pdpts(m0, root) + Pds(m0, root))
  {
    hide Pdpts; hide Pds;
  }

  /** Clearing a frame that is untouched or cleared already leaves it cleared. */
  lemma ClearedTwice(m0: Mem, m1: Mem, m2: Mem, f: nat)
    requires f < |m0| == |m1| && (m1[f] == m0[f] || ClearedIn(m0, m1, f)) && Cleared(m1, m2, {f})
    ensures ClearedIn(m0, m2, f) && forall g :: 0 <= g < |m0| && g != f ==> m2[g] == m1[g]
  {
    assert ClearedIn(m1, m2, f);
  }

  // ---------------------------------------------------------------------------------
  // One second-level table at a time
  // ---------------------------------------------------------------------------------

  ghost predicate PdptReady(m: Mem, t: nat) {
    && t < |m| && |m[t]| == ENTRIES
    && forall c :: c in Children(m, t, ENTRIES) ==> c < |m| && |m[c]| == ENTRIES && c != t
  }

  /** Between iterations: the tables of slots already cleared are cleared, nothing outside the
      branch has changed. */
  ghost predicate PdptProgress(m0: Mem, m: Mem, t: nat) {
    && PdptReady(m0, t) && |m| == |m0| && |m[t]| == ENTRIES
    && (forall f :: 0 <= f < |m0| && f != t && f !in Children(m0, t, ENTRIES) ==> m[f] == m0[f])
    && (forall c :: c in Children(m0, t, ENTRIES) ==> m[c] == m0[c] || ClearedIn(m0, m, c))
    && forall j :: 0 <= j < ENTRIES ==>
         m[t][j] == m0[t][j]
         || (m0[t][j].p && m[t][j] == ZERO && m0[t][j].frame < |m0| && ClearedIn(m0, m, m0[t][j].frame))
  }

  lemma PdptStart(m0: Mem, t: nat)
    requires PdptReady(m0, t)
    ensures PdptProgress(m0, m0, t)
  {
  }

  lemma PdptNext(m0: Mem, m: Mem, t: nat, i: nat)
    requires PdptProgress(m0, m, t) && i < ENTRIES && m[t][i].p
    ensures var pd := m[t][i].frame; pd == m0[t][i].frame && pd in Children(m0, t, ENTRIES) && pd < |m| && |m[pd]| == ENTRIES
  {
    assert Peek(m0, t, i).p;
  }

  lemma PdptStep(m0: Mem, m1: Mem, m2: Mem, t: nat, i: nat)
    requires PdptProgress(m0, m1, t) && i < ENTRIES && m1[t][i].p && Cleared(m1, m2, {m1[t][i].frame})
    ensures m2[t] == m1[t] && PdptProgress(m0, Poke(m2, t, i, ZERO), t)
  {
    PdptNext(m0, m1, t, i);
    ClearedTwice(m0, m1, m2, m1[t][i].frame);
    hide Children; hide Cleared;
    var m: Mem := Poke(m2, t, i, ZERO);
    forall f: nat | f < |m0| && f != t && ClearedIn(m0, m1, f) ensures ClearedIn(m0, m, f) {
    }
  }

  lemma PdptDone(m0: Mem, m: Mem, t: nat)
    requires PdptProgress(m0, m, t) && FirstPresent(m[t]) == ENTRIES
    ensures Cleared(m0, m, {t} + Children(m0, t, ENTRIES))
  {
    assert forall j :: 0 <= j < ENTRIES ==> !m[t][j].p;
    forall c | c in Children(m0, t, ENTRIES) ensures ClearedIn(m0, m, c) {
      var j :| 0 <= j < ENTRIES && Peek(m0, t, j).p && Peek(m0, t, j).frame == c;
      assert !m[t][j].p;
    }
  }
}
