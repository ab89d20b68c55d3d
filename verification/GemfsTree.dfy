/**
  The directory tree of GemFS, as a property of the entries in index order: a directory's
  Start names its first child and each child's Sibling_Index the next.
 */
module GemfsTree {
  import opened Registers
  import opened ByteMemory
  import opened GemfsCodec

  predicate InUse(e: Entry) {
    e.flags % 2 == 1
  }

  predicate IsDir(e: Entry) {
    e.flags / 16 % 2 == 1
  }

  const NO_NAME: Name := ZeroBytes(NAME_BYTES)

  const BLANK := Entry(0, 0, 0, 0, 0, 0, 0, 0, NO_NAME)

  // ---------------------------------------------------------------------------------
  // Operations
  // ---------------------------------------------------------------------------------

  /** The end of the sibling list that starts at i: the loop of GemFS_mkdir. */
  function LastSibling(es: seq<Entry>, i: nat): nat
    decreases |es| - i
  {
    if i < |es| && i < es[i].sibling < |es| then LastSibling(es, es[i].sibling) else i
  }

  /** GemFS_mkdir on the entries, of which the last is the free one: hooks a new entry behind
      the parent's last child, or makes it the parent's first. */
  function AddChild(es: seq<Entry>, parent: nat, flags: Byte, name: Name): (r: seq<Entry>)
    requires parent < |es| - 1 < TWO_64
    ensures |r| == |es|
  {
    var free := |es| - 1;
    var head := es[parent].start;
    var tail := LastSibling(es, head);
    var es1 := if head != 0 && tail < |es| then es[tail := es[tail].(sibling := free)] else es;
    var es2 := es1[free := BLANK.(flags := flags, index := free, parent := parent, name := name)];
    es2[parent := if head == 0 then es[parent].(start := free) else es[parent]]
  }

  /** The indices met when walking a sibling list from i on. */
  function WalkFrom(es: seq<Entry>, i: nat): seq<nat>
    decreases |es| - i
  {
    if i < |es| && i < es[i].sibling < |es| then [i] + WalkFrom(es, es[i].sibling) else [i]
  }

  /** ... and from a directory's Start. */
  function Walk(es: seq<Entry>, d: nat): seq<nat>
    requires d < |es|
  {
    if es[d].start == 0 then [] else WalkFrom(es, es[d].start)
  }

  // ---------------------------------------------------------------------------------
  // What the tree should be
  // ---------------------------------------------------------------------------------

  predicate IsChild(e: Entry, d: nat) {
    InUse(e) && e.parent == d
  }

  /** The used entries below n, other than the root, whose parent is d, in index order. */
  function KidsBelow(es: seq<Entry>, d: nat, n: nat): seq<nat>
    requires n <= |es|
    decreases n
  {
    if n <= 1 then []
    else KidsBelow(es, d, n - 1) + if IsChild(es[n - 1], d) then [n - 1] else []
  }

  function Kids(es: seq<Entry>, d: nat): seq<nat> {
    KidsBelow(es, d, |es|)
  }

  function Sibling(es: seq<Entry>, k: nat): nat {
    if k < |es| then es[k].sibling else 0
  }

  /** What follows element j of a list, 0 at the end. */
  function NextOf(ks: seq<nat>, j: nat): nat {
    if j + 1 < |ks| then ks[j + 1] else 0
  }

  /** Start and the sibling links spell out the list ks. */
  ghost predicate Spells(es: seq<Entry>, d: nat, ks: seq<nat>)
    requires d < |es|
  {
    && es[d].start == (if ks == [] then 0 else ks[0])
    && forall j :: 0 <= j < |ks| ==> Sibling(es, ks[j]) == NextOf(ks, j)
  }

  predicate Increasing(ks: seq<nat>) {
    forall i, j :: 0 <= i < j < |ks| ==> ks[i] < ks[j]
  }

  lemma {:induction false} KidsSpec(es: seq<Entry>, d: nat, n: nat)
    requires n <= |es|
    ensures forall k :: k in KidsBelow(es, d, n) <==> 1 <= k < n && IsChild(es[k], d)
    ensures Increasing(KidsBelow(es, d, n))
    decreases n
  {
    hide IsChild;
    if n > 1 {
      KidsSpec(es, d, n - 1);
      var before, ks := KidsBelow(es, d, n - 1), KidsBelow(es, d, n);
      forall i, j | 0 <= i < j < |ks| ensures ks[i] < ks[j] {
        assert ks[i] == before[i] && before[i] in before;
        if j < |before| {
          assert ks[j] == before[j] && before[i] < before[j];
        } else {
          assert ks[j] == n - 1 && before[i] < n - 1;
        }
      }
    }
  }

  ghost predicate DirectoryOk(es: seq<Entry>, d: nat)
    requires d < |es|
  {
    Spells(es, d, Kids(es, d))
  }

  /** All entries but perhaps the last are in use, know their index and have a directory with a
      smaller index for a parent; and every directory's list is its children. */
  ghost predicate TreeOk(es: seq<Entry>) {
    && 1 <= |es| < TWO_64 && InUse(es[0]) && IsDir(es[0]) && es[0].sibling == 0
    && (forall k :: 0 <= k < |es| - 1 ==> InUse(es[k]))
    && (forall k :: 0 <= k < |es| && InUse(es[k]) ==> es[k].index == k)
    && (forall k :: 1 <= k < |es| && InUse(es[k]) ==> es[k].parent < k && IsDir(es[es[k].parent]))
    && forall d :: 0 <= d < |es| && InUse(es[d]) && IsDir(es[d]) ==> DirectoryOk(es, d)
  }

  // ---------------------------------------------------------------------------------
  // Walking
  // ---------------------------------------------------------------------------------

  lemma {:induction false} WalkSpells(es: seq<Entry>, d: nat, ks: seq<nat>, j: nat)
    requires d < |es| && (forall i :: 0 <= i < |ks| ==> 1 <= ks[i] < |es|) && Spells(es, d, ks) && j < |ks|
    requires Increasing(ks)
    ensures WalkFrom(es, ks[j]) == ks[j..] && LastSibling(es, ks[j]) == ks[|ks| - 1]
    decreases |ks| - j
  {
    assert Sibling(es, ks[j]) == NextOf(ks, j);
    assert 1 <= ks[j] < |es|;
    if j + 1 < |ks| {
      assert ks[j] < ks[j + 1] && 1 <= ks[j + 1] < |es|;
      WalkSpells(es, d, ks, j + 1);
      hide Spells; hide Increasing;
      assert ks[j..] == [ks[j]] + ks[j + 1..];
    } else {
      hide Spells; hide Increasing;
      assert ks[j..] == [ks[j]];
    }
  }

  /** Every sibling walk terminates, having met exactly the used entries with that parent, each
      once and in increasing order. */
  lemma WalkIsChildren(es: seq<Entry>, d: nat)
    requires TreeOk(es) && d < |es| && InUse(es[d]) && IsDir(es[d])
    ensures Walk(es, d) == Kids(es, d)
    ensures forall k :: k in Walk(es, d) <==> 1 <= k < |es| && IsChild(es[k], d)
    ensures Increasing(Walk(es, d))
    ensures Kids(es, d) != [] ==> LastSibling(es, es[d].start) == Kids(es, d)[|Kids(es, d)| - 1]
  {
    KidsSpec(es, d, |es|);
    assert DirectoryOk(es, d);
    var ks := Kids(es, d);
    assert ks == KidsBelow(es, d, |es|);
    hide IsChild; hide Kids;
    forall i | 0 <= i < |ks| ensures 1 <= ks[i] < |es| {
      assert ks[i] in ks;
    }
    if ks != [] {
      WalkSpells(es, d, ks, 0);
    }
  }

  // ---------------------------------------------------------------------------------
  // Adding a child
  // ---------------------------------------------------------------------------------

  lemma {:induction false} KidsSame(es: seq<Entry>, es': seq<Entry>, d: nat, n: nat)
    requires n <= |es| == |es'|
    requires forall k :: 1 <= k < n ==> IsChild(es'[k], d) == IsChild(es[k], d)
    ensures KidsBelow(es', d, n) == KidsBelow(es, d, n)
    decreases n
  {
    if n > 1 {
      KidsSame(es, es', d, n - 1);
    }
  }

  /** What GemFS_mkdir needs: a used directory for a parent, a free last entry, and flags that
      mark the new entry used. */
  ghost predicate CanAdd(es: seq<Entry>, parent: nat, flags: Byte) {
    && TreeOk(es) && !InUse(es[|es| - 1]) && parent < |es| - 1 && IsDir(es[parent]) && flags % 2 == 1
  }

  /** The parent's children are used entries other than the parent. */
  lemma KidsOfParent(es: seq<Entry>, parent: nat, flags: Byte)
    requires CanAdd(es, parent, flags)
    ensures forall k :: k in Kids(es, parent) ==> 1 <= k < |es| - 1 && k != parent && InUse(es[k])
    ensures var ks := Kids(es, parent);
            && (es[parent].start == 0 <==> ks == [])
            && (ks != [] ==> LastSibling(es, es[parent].start) == ks[|ks| - 1] && ks[|ks| - 1] in ks)
  {
    hide KidsBelow; hide LastSibling; hide Walk; hide IsDir; hide Spells; hide DirectoryOk; hide InUse;
    var ks := Kids(es, parent);
    KidsSpec(es, parent, |es|);
    WalkIsChildren(es, parent);
    assert InUse(es[parent]) && DirectoryOk(es, parent);
    StartOf(es, parent);
    hide Kids;
    ParentNotKid(es, parent);
    if ks != [] {
      assert ks[0] in ks && ks[|ks| - 1] in ks;
    }
  }

  lemma StartOf(es: seq<Entry>, d: nat)
    requires d < |es| && DirectoryOk(es, d)
    ensures es[d].start == if Kids(es, d) == [] then 0 else Kids(es, d)[0]
  {
    hide Kids; hide Sibling; hide NextOf;
  }

  lemma ParentNotKid(es: seq<Entry>, parent: nat)
    requires TreeOk(es) && !InUse(es[|es| - 1])
    ensures forall k :: k in Kids(es, parent) ==> 1 <= k < |es| - 1 && k != parent && InUse(es[k])
  {
    hide KidsBelow; hide DirectoryOk; hide IsDir;
    KidsSpec(es, parent, |es|);
  }

  /** Which fields AddChild touches, entry by entry. */
  lemma AddChildFields(es: seq<Entry>, parent: nat, flags: Byte, name: Name)
    requires CanAdd(es, parent, flags)
    ensures var r := AddChild(es, parent, flags, name); var free := |es| - 1; var ks := Kids(es, parent);
            && r[free] == BLANK.(flags := flags, index := free, parent := parent, name := name)
            && (forall k :: k in ks ==> 1 <= k < free && k != parent)
            && (forall k :: 0 <= k < free ==>
                  r[k] == if k == parent && ks == [] then es[k].(start := free)
                          else if ks != [] && k == ks[|ks| - 1] then es[k].(sibling := free)
                          else es[k])
  {
    KidsOfParent(es, parent, flags);
    hide Kids; hide LastSibling; hide TreeOk; hide InUse; hide IsDir;
    assert es[parent].start == 0 ==> Kids(es, parent) == [];
  }

  lemma AddChildKids(es: seq<Entry>, parent: nat, flags: Byte, name: Name, d: nat)
    requires CanAdd(es, parent, flags)
    ensures var r := AddChild(es, parent, flags, name);
            Kids(r, d) == if d == parent then Kids(es, d) + [|es| - 1] else Kids(es, d)
  {
    hide AddChild; hide TreeOk; hide IsDir;
    AddChildFields(es, parent, flags, name);
    var r, free := AddChild(es, parent, flags, name), |es| - 1;
    forall k | 1 <= k < free ensures IsChild(r[k], d) == IsChild(es[k], d) {
    }
    KidsSame(es, r, d, free);
    KidsStep(es, d);
    KidsStep(r, d);
  }

  lemma KidsStep(es: seq<Entry>, d: nat)
    requires |es| >= 2
    ensures Kids(es, d) == KidsBelow(es, d, |es| - 1) + if IsChild(es[|es| - 1], d) then [|es| - 1] else []
  {
  }

  /** The new entry, when it is a directory, has no children yet. */
  lemma FreeHasNoKids(es: seq<Entry>)
    requires TreeOk(es)
    ensures Kids(es, |es| - 1) == []
  {
    hide DirectoryOk; hide KidsBelow; hide IsDir;
    NoKids(es, |es| - 1, |es|);
  }

  lemma {:induction false} NoKids(es: seq<Entry>, d: nat, n: nat)
    requires n <= |es| && forall k :: 1 <= k < n ==> !IsChild(es[k], d)
    ensures KidsBelow(es, d, n) == []
    decreases n
  {
    if n > 1 {
      NoKids(es, d, n - 1);
    }
  }

  /** The links after AddChild. */
  lemma AddChildLinks(es: seq<Entry>, parent: nat, flags: Byte, name: Name)
    requires CanAdd(es, parent, flags)
    ensures var r := AddChild(es, parent, flags, name); var free := |es| - 1; var ks := Kids(es, parent);
            && (forall k :: 0 <= k < free ==> r[k].start == if k == parent && ks == [] then free else es[k].start)
            && (forall k: nat :: Sibling(r, k) == if k == free then 0 else if ks != [] && k == ks[|ks| - 1] then free
                                                  else Sibling(es, k))
  {
    AddChildFields(es, parent, flags, name);
    assert var ks := Kids(es, parent); ks != [] ==> ks[|ks| - 1] in ks;
    hide AddChild; hide Kids; hide CanAdd;
  }

  /** Directories other than the parent keep their lists: their last child is not the parent's. */
  lemma OtherDirectory(es: seq<Entry>, parent: nat, flags: Byte, name: Name, d: nat)
    requires CanAdd(es, parent, flags) && d < |es| - 1 && d != parent && DirectoryOk(es, d)
    ensures Spells(AddChild(es, parent, flags, name), d, Kids(es, d))
  {
    var r, ks := AddChild(es, parent, flags, name), Kids(es, d);
    hide AddChild; hide TreeOk; hide InUse; hide IsDir; hide KidsBelow; hide Sibling; hide Spells;
    AddChildLinks(es, parent, flags, name);
    KidsDisjoint(es, parent, d);
    KidsBelowFree(es, d);
    hide Kids; hide CanAdd;
    forall k | k in ks ensures Sibling(r, k) == Sibling(es, k) {
    }
    SpellsKept(es, r, d, ks);
  }

  lemma SpellsKept(es: seq<Entry>, r: seq<Entry>, d: nat, ks: seq<nat>)
    requires d < |es| && d < |r| && Spells(es, d, ks) && r[d].start == es[d].start
    requires forall k :: k in ks ==> Sibling(r, k) == Sibling(es, k)
    ensures Spells(r, d, ks)
  {
    hide Sibling;
  }

  lemma KidsBelowFree(es: seq<Entry>, d: nat)
    requires es != [] && !InUse(es[|es| - 1])
    ensures Increasing(Kids(es, d)) && forall k :: k in Kids(es, d) ==> k < |es| - 1
  {
    KidsSpec(es, d, |es|);
  }

  lemma KidsDisjoint(es: seq<Entry>, parent: nat, d: nat)
    requires d != parent
    ensures var pks := Kids(es, parent); pks != [] ==> pks[|pks| - 1] !in Kids(es, d)
  {
    hide KidsBelow; hide InUse;
    KidsSpec(es, parent, |es|);
    KidsSpec(es, d, |es|);
    var pks := Kids(es, parent);
    assert pks != [] ==> pks[|pks| - 1] in pks;
  }

  lemma ParentListed(es: seq<Entry>, parent: nat, flags: Byte)
    requires CanAdd(es, parent, flags)
    ensures DirectoryOk(es, parent) && !InUse(es[|es| - 1]) && |es| - 1 < TWO_64
  {
    hide DirectoryOk; hide IsDir; hide InUse;
  }

  /** The parent's list gets the new entry at its end. */
  lemma ParentDirectory(es: seq<Entry>, parent: nat, flags: Byte, name: Name)
    requires CanAdd(es, parent, flags)
    ensures Spells(AddChild(es, parent, flags, name), parent, Kids(es, parent) + [|es| - 1])
  {
    hide AddChild; hide KidsBelow; hide TreeOk; hide IsDir; hide InUse; hide Spells; hide Kids; hide Sibling;
    ParentListed(es, parent, flags);
    AddChildLinks(es, parent, flags, name);
    KidsBelowFree(es, parent);
    var r := AddChild(es, parent, flags, name);
    var ks := Kids(es, parent);
    SpellsAppend(es, r, parent, ks, |es| - 1);
  }

  lemma SpellsAppend(es: seq<Entry>, r: seq<Entry>, d: nat, ks: seq<nat>, free: nat)
    requires d < |es| && d < |r| && Spells(es, d, ks) && Increasing(ks) && forall k :: k in ks ==> k < free
    requires r[d].start == if ks == [] then free else es[d].start
    requires forall k: nat :: Sibling(r, k) == if k == free then 0 else if ks != [] && k == ks[|ks| - 1] then free
                                               else Sibling(es, k)
    ensures Spells(r, d, ks + [free])
  {
    hide Sibling;
    var ks' := ks + [free];
    forall j | 0 <= j < |ks'| ensures Sibling(r, ks'[j]) == NextOf(ks', j) {
      if j < |ks| {
        assert ks[j] in ks;
      }
    }
  }

  lemma FreeDirectory(es: seq<Entry>, parent: nat, flags: Byte, name: Name)
    requires CanAdd(es, parent, flags)
    ensures Spells(AddChild(es, parent, flags, name), |es| - 1, [])
  {
    AddChildFields(es, parent, flags, name);
    hide AddChild; hide Kids;
  }

  lemma AddChildFlags(es: seq<Entry>, parent: nat, flags: Byte, name: Name, d: nat)
    requires CanAdd(es, parent, flags)
    requires d < |es| - 1 && IsDir(AddChild(es, parent, flags, name)[d])
    ensures DirectoryOk(es, d)
  {
    hide AddChild; hide InUse; hide DirectoryOk;
    AddChildFields(es, parent, flags, name);
    hide Kids;
    assert AddChild(es, parent, flags, name)[d].flags == es[d].flags;
  }

  lemma AddChildDirectory(es: seq<Entry>, parent: nat, flags: Byte, name: Name, d: nat)
    requires CanAdd(es, parent, flags)
    requires var r := AddChild(es, parent, flags, name); d < |es| && InUse(r[d]) && IsDir(r[d])
    ensures DirectoryOk(AddChild(es, parent, flags, name), d)
  {
    hide AddChild; hide KidsBelow; hide Kids; hide TreeOk; hide InUse; hide IsDir; hide Spells;
    AddChildKids(es, parent, flags, name, d);
    if d < |es| - 1 {
      AddChildFlags(es, parent, flags, name, d);
    }
    if d == |es| - 1 {
      FreeHasNoKids(es);
      FreeDirectory(es, parent, flags, name);
    } else if d == parent {
      ParentDirectory(es, parent, flags, name);
    } else {
      OtherDirectory(es, parent, flags, name, d);
    }
  }

  /** What AddChild leaves of every old entry. */
  lemma AddChildOld(es: seq<Entry>, parent: nat, flags: Byte, name: Name)
    requires CanAdd(es, parent, flags)
    ensures var r := AddChild(es, parent, flags, name); var free := |es| - 1;
            && (forall k :: 0 <= k < free ==>
                  InUse(r[k]) == InUse(es[k]) && IsDir(r[k]) == IsDir(es[k]) && r[k].index == es[k].index
                  && r[k].parent == es[k].parent)
            && r[0].sibling == 0 && InUse(r[free]) && r[free].index == free && r[free].parent == parent
  {
    AddChildFields(es, parent, flags, name);
    assert es[0].sibling == 0;
    assert var ks := Kids(es, parent); ks != [] ==> ks[|ks| - 1] in ks;
    hide AddChild; hide Kids; hide TreeOk;
  }

  /** Directory tree invariant: adding a child under a directory keeps the tree, appends the new
      index to the parent's list and changes no other directory's. */
  lemma AddChildOk(es: seq<Entry>, parent: nat, flags: Byte, name: Name)
    requires CanAdd(es, parent, flags)
    ensures var r := AddChild(es, parent, flags, name);
            && TreeOk(r) && InUse(r[|es| - 1])
            && forall d :: Kids(r, d) == if d == parent then Kids(es, d) + [|es| - 1] else Kids(es, d)
  {
    hide AddChild; hide Kids; hide InUse; hide IsDir; hide DirectoryOk;
    AddChildOld(es, parent, flags, name);
    var r := AddChild(es, parent, flags, name);
    forall d ensures Kids(r, d) == if d == parent then Kids(es, d) + [|es| - 1] else Kids(es, d) {
      AddChildKids(es, parent, flags, name, d);
    }
    forall d | 0 <= d < |es| && InUse(r[d]) && IsDir(r[d]) ensures DirectoryOk(r, d) {
      AddChildDirectory(es, parent, flags, name, d);
    }
  }

  /** GemFS_mkdir never refuses a parent that is a file: the tree survives exactly when the
      parent is a directory. */
  lemma AddChildOkIff(es: seq<Entry>, parent: nat, flags: Byte, name: Name)
    requires TreeOk(es) && !InUse(es[|es| - 1]) && parent < |es| - 1 && flags % 2 == 1
    ensures TreeOk(AddChild(es, parent, flags, name)) <==> IsDir(es[parent])
  {
    if IsDir(es[parent]) {
      AddChildOk(es, parent, flags, name);
    } else {
      var r, free := AddChild(es, parent, flags, name), |es| - 1;
      assert r[free].flags == flags && r[free].parent == parent && r[parent].flags == es[parent].flags;
      assert InUse(r[free]) && !IsDir(r[parent]);
    }
  }
}
