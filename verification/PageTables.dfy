/**
  The four-level page-table walk over untyped physical memory.

  A virtual page is named by its page number (address bits 12-47), so pages below
  USER_PAGES form the user half and the rest the kernel half.  A table of level `l`
  covers Span(l) pages; the root (PML4) has level 4 and a page table (PT) level 1.
 */
module PageTables {
  import opened Wrappers
  import opened Words

  type Mem = seq<seq<Word>>

  const USER_PAGES: nat := 0x8_0000_0000
  const ALL_PAGES: nat := 0x10_0000_0000

  /** First root slot of the kernel half, the one that holds the kernel image and heap. */
  const KERNEL_SLOT: nat := 256

  function Span(level: nat): nat
    requires level <= 4
  {
    if level == 0 then 1
    else if level == 1 then 0x200
    else if level == 2 then 0x4_0000
    else if level == 3 then 0x800_0000
    else 0x10_0000_0000
  }

  /** Which table of a level covers page n, counted over the whole address space. */
  function Prefix(n: nat, level: nat): nat
    requires level <= 4
  {
    n / Span(level)
  }

  /** The slot used by page n in a table of the given level. */
  function Index(n: nat, level: nat): (i: nat)
    requires 1 <= level <= 4
    ensures i < ENTRIES
  {
    Prefix(n, level - 1) % ENTRIES
  }

  function Peek(m: Mem, f: nat, i: nat): Word {
    if f < |m| && i < |m[f]| then m[f][i] else ZERO
  }

  function Poke(m: Mem, f: nat, i: nat, w: Word): Mem {
    if f < |m| && i < |m[f]| then m[f := m[f][i := w]] else m
  }

  /** Replaces the whole content of a frame. */
  function Fill(m: Mem, f: nat, content: seq<Word>): Mem {
    if f < |m| then m[f := content] else m
  }

  function Content(m: Mem, f: nat): seq<Word> {
    if f < |m| then m[f] else []
  }

  /** The frame of the level-`level` table on the walk for page n, if the walk gets that far. */
  function Table(m: Mem, root: nat, n: nat, level: nat): Option<nat>
    requires 1 <= level <= 4
    decreases 4 - level
  {
    if level == 4 then Some(root)
    else
      match Table(m, root, n, level + 1)
      case None => None
      case Some(t) =>
        var w := Peek(m, t, Index(n, level + 1));
        if w.p then Some(w.frame) else None
  }

  /** The page-table entry for page n; a walk that stops early reads as the zero word. */
  function Leaf(m: Mem, root: nat, n: nat): Word {
    match Table(m, root, n, 1)
    case None => ZERO
    case Some(t) => Peek(m, t, Index(n, 1))
  }

  // ---------------------------------------------------------------------------------
  // What each frame is for
  // ---------------------------------------------------------------------------------

  datatype Owner = Kernel | Space(root: nat)

  /** A table's place in the tree it belongs to; Plain is every frame that is not a table. */
  datatype Role = Plain | Tab(owner: Owner, level: nat, prefix: nat)

  function RootRole(f: nat): Role {
    Tab(Space(f), 4, 0)
  }

  /** The role that slot i of a table gives to the frame it points at. */
  function ChildRole(role: Role, i: nat): Role {
    match role
    case Plain => Plain
    case Tab(o, l, p) =>
      if l <= 1 then Plain
      else if l == 4 && i >= KERNEL_SLOT then Tab(Kernel, 3, i)
      else Tab(o, l - 1, p * ENTRIES + i)
  }

  /** The role of the table that the walk for page n from `root` meets at a level. */
  function RoleAt(root: nat, n: nat, level: nat): Role
    requires level <= 4
  {
    Tab(if level < 4 && n >= USER_PAGES then Kernel else Space(root), level, Prefix(n, level))
  }

  ghost predicate Shaped(m: Mem, role: seq<Role>) {
    && |role| == |m|
    && forall f :: 0 <= f < |m| ==> |m[f]| == ENTRIES
  }

  /** Every present entry above the last level points at a frame playing the child's role. */
  ghost predicate Linked(m: Mem, role: seq<Role>)
    requires Shaped(m, role)
  {
    forall f, i :: 0 <= f < |m| && 0 <= i < ENTRIES && role[f].Tab? && role[f].level > 1 && m[f][i].p ==>
      m[f][i].frame < |m| && role[m[f][i].frame] == ChildRole(role[f], i)
  }

  /** Roles describe the tables in memory. */
  ghost predicate Tree(m: Mem, role: seq<Role>) {
    && Shaped(m, role)
    && Linked(m, role)
    && forall f :: 0 <= f < |m| && role[f].Tab? ==>
         1 <= role[f].level <= 4 && (role[f].level == 4 ==> role[f] == RootRole(f))
  }

  ghost predicate IsRoot(role: seq<Role>, r: nat) {
    r < |role| && role[r] == RootRole(r)
  }

  // ---------------------------------------------------------------------------------
  // Arithmetic of slots
  // ---------------------------------------------------------------------------------

  lemma PrefixSplit(n: nat, level: nat)
    requires 1 <= level <= 4
    ensures Prefix(n, level - 1) == Prefix(n, level) * ENTRIES + Index(n, level)
  {
    if level == 1 {
    } else if level == 2 {
      assert n / 0x4_0000 == (n / 0x200) / 0x200;
    } else if level == 3 {
      assert n / 0x800_0000 == (n / 0x4_0000) / 0x200;
    } else {
      assert n / 0x10_0000_0000 == (n / 0x800_0000) / 0x200;
    }
  }

  /** Following the slot of page n takes the role at one level to the role at the next. */
  lemma RoleStep(root: nat, n: nat, level: nat)
    requires n < ALL_PAGES && 2 <= level <= 4
    ensures ChildRole(RoleAt(root, n, level), Index(n, level)) == RoleAt(root, n, level - 1)
  {
    PrefixSplit(n, level);
  }

  /** A page is determined by its PT and its slot there. */
  lemma SamePage(n: nat, k: nat)
    requires Prefix(n, 1) == Prefix(k, 1) && Index(n, 1) == Index(k, 1)
    ensures n == k
  {
    PrefixSplit(n, 1);
    PrefixSplit(k, 1);
  }

  // ---------------------------------------------------------------------------------
  // Walks
  // ---------------------------------------------------------------------------------

  /** A walk only ever meets tables whose role is the one the page calls for. */
  lemma {:induction false} TableRole(m: Mem, role: seq<Role>, root: nat, n: nat, level: nat)
    requires Tree(m, role) && IsRoot(role, root) && n < ALL_PAGES && 1 <= level <= 4
    ensures var t := Table(m, root, n, level);
            t.Some? ==> t.value < |m| && role[t.value] == RoleAt(root, n, level)
    decreases 4 - level
  {
    if level < 4 {
      TableRole(m, role, root, n, level + 1);
      RoleStep(root, n, level + 1);
    }
  }

  /** Two walks that end in the same page table are walks of neighbouring pages, and in the
      user half they start from the same root. */
  lemma TablesDiffer(m: Mem, role: seq<Role>, r: nat, n: nat, r': nat, n': nat)
    requires Tree(m, role) && IsRoot(role, r) && IsRoot(role, r') && n < ALL_PAGES && n' < ALL_PAGES
    requires Table(m, r, n, 1).Some? && Table(m, r', n', 1) == Table(m, r, n, 1)
    requires Index(n, 1) == Index(n', 1)
    ensures n == n' && (n < USER_PAGES ==> r == r')
  {
    TableRole(m, role, r, n, 1);
    TableRole(m, role, r', n', 1);
    SamePage(n, n');
  }

  /** Writing one entry of a table disturbs only the walks that use that entry. */
  lemma {:induction false} PokeTable(m: Mem, role: seq<Role>, t: nat, i: nat, w: Word, r: nat, n: nat, level: nat)
    requires Tree(m, role) && IsRoot(role, r) && n < ALL_PAGES && 1 <= level <= 4
    requires t < |m| && role[t].Tab? && i < ENTRIES
    requires level < role[t].level ==>
               Table(m, r, n, role[t].level) != Some(t) || Index(n, role[t].level) != i
    ensures Table(Poke(m, t, i, w), r, n, level) == Table(m, r, n, level)
    decreases 4 - level
  {
    hide Linked;
    if level < 4 {
      PokeTable(m, role, t, i, w, r, n, level + 1);
      TableRole(m, role, r, n, level + 1);
    }
  }

  lemma PokeLeaf(m: Mem, role: seq<Role>, t: nat, i: nat, w: Word, r: nat, n: nat)
    requires Tree(m, role) && IsRoot(role, r) && n < ALL_PAGES
    requires t < |m| && role[t].Tab? && i < ENTRIES
    requires Table(m, r, n, role[t].level) != Some(t) || Index(n, role[t].level) != i
    ensures Leaf(Poke(m, t, i, w), r, n) == Leaf(m, r, n)
  {
    PokeTable(m, role, t, i, w, r, n, 1);
    TableRole(m, role, r, n, 1);
  }

  /** The content of a frame that is not a table takes part in no walk. */
  lemma {:induction false} FillTable(m: Mem, role: seq<Role>, f: nat, content: seq<Word>, r: nat, n: nat, level: nat)
    requires Tree(m, role) && IsRoot(role, r) && n < ALL_PAGES && 1 <= level <= 4
    requires f < |m| && role[f] == Plain
    ensures Table(Fill(m, f, content), r, n, level) == Table(m, r, n, level)
    decreases 4 - level
  {
    hide Linked;
    if level < 4 {
      FillTable(m, role, f, content, r, n, level + 1);
      TableRole(m, role, r, n, level + 1);
    }
  }

  lemma FillLeaf(m: Mem, role: seq<Role>, f: nat, content: seq<Word>, r: nat, n: nat)
    requires Tree(m, role) && IsRoot(role, r) && n < ALL_PAGES
    requires f < |m| && role[f] == Plain
    ensures Leaf(Fill(m, f, content), r, n) == Leaf(m, r, n)
  {
    FillTable(m, role, f, content, r, n, 1);
    TableRole(m, role, r, n, 1);
  }

  /** Roots that agree on slot `Index(n, 4)` translate page n alike. */
  lemma {:induction false} SharedSlot(m: Mem, r: nat, r': nat, n: nat, level: nat)
    requires 1 <= level <= 3
    requires Peek(m, r, Index(n, 4)) == Peek(m, r', Index(n, 4))
    ensures Table(m, r, n, level) == Table(m, r', n, level)
    decreases 4 - level
  {
    if level < 3 {
      SharedSlot(m, r, r', n, level + 1);
    }
  }

  /** A walk that stops above the last level reads as the zero word. */
  lemma {:induction false} NoneBelow(m: Mem, r: nat, n: nat, level: nat)
    requires 1 <= level <= 4 && Table(m, r, n, level).None?
    ensures Leaf(m, r, n) == ZERO
  {
    if level > 1 {
      NoneBelow(m, r, n, level - 1);
    }
  }
}
