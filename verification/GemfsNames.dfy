/**
  Names and paths over the directory tree: what looking up a child and resolving a path find,
  against first-match search among a directory's children.
 */
module GemfsNames {
  import opened Wrappers
  import opened Registers
  import opened ByteMemory
  import opened GemfsCodec
  import opened GemfsTree
  import opened GemfsLayout

  const SLASH: Byte := 47

  /** The C string at the start of a buffer. */
  function TextOf(s: seq<Byte>): CString {
    if s == [] || s[0] == 0 then [] else [s[0]] + TextOf(s[1..])
  }

  lemma {:induction false} TextOfPadded(s: CString, n: nat)
    ensures TextOf(s + ZeroBytes(n)) == s
  {
    if s != [] {
      TextOfPadded(s[1..], n);
      assert (s + ZeroBytes(n))[1..] == s[1..] + ZeroBytes(n);
    }
  }

  // ---------------------------------------------------------------------------------
  // Looking up a child
  // ---------------------------------------------------------------------------------

  predicate Named(es: seq<Entry>, k: nat, name: CString) {
    k < |es| && TextOf(es[k].name) == name
  }

  /** The loop of GemFS_Find_Index_By_Name, from entry i on. */
  function LookupFrom(es: seq<Entry>, name: CString, i: nat): Option<nat>
    decreases |es| - i
  {
    if i >= |es| then None
    else if Named(es, i, name) then Some(es[i].index)
    else if i < es[i].sibling < |es| then LookupFrom(es, name, es[i].sibling)
    else None
  }

  /** GemFS_Find_Index_By_Name: a directory whose Start is its own index is taken to be empty. */
  function Lookup(es: seq<Entry>, name: CString, d: nat): Option<nat>
    requires d < |es|
  {
    if es[d].start == es[d].index then Some(0) else LookupFrom(es, name, es[d].start)
  }

  /** The first of some entries with a name. */
  function FirstMatch(es: seq<Entry>, name: CString, ks: seq<nat>): Option<nat> {
    if ks == [] then None else if Named(es, ks[0], name) then Some(ks[0]) else FirstMatch(es, name, ks[1..])
  }

  lemma {:induction false} LookupFromSpells(es: seq<Entry>, d: nat, ks: seq<nat>, name: CString, j: nat)
    requires d < |es| && Spells(es, d, ks) && Increasing(ks) && j < |ks|
    requires forall i :: 0 <= i < |ks| ==> 1 <= ks[i] < |es| && es[ks[i]].index == ks[i]
    ensures LookupFrom(es, name, ks[j]) == FirstMatch(es, name, ks[j..])
    decreases |ks| - j
  {
    assert Sibling(es, ks[j]) == NextOf(ks, j);
    hide TextOf;
    if j + 1 < |ks| {
      LookupFromSpells(es, d, ks, name, j + 1);
      assert ks[j..][1..] == ks[j + 1..];
    } else {
      assert ks[j..][1..] == [];
    }
  }

  /** In a directory that has children, looking up a name finds the first child so named. */
  lemma LookupIsFirstMatch(es: seq<Entry>, name: CString, d: nat)
    requires TreeOk(es) && d < |es| && InUse(es[d]) && IsDir(es[d]) && Kids(es, d) != []
    ensures Lookup(es, name, d) == FirstMatch(es, name, Kids(es, d))
  {
    hide TextOf; hide Named; hide KidsBelow; hide IsDir;
    KidsSpec(es, d, |es|);
    assert DirectoryOk(es, d);
    var ks := Kids(es, d);
    hide Kids; hide LookupFrom; hide FirstMatch;
    forall i | 0 <= i < |ks| ensures 1 <= ks[i] < |es| && es[ks[i]].index == ks[i] && d < ks[i] {
      assert ks[i] in ks;
      assert IsChild(es[ks[i]], d);
    }
    LookupFromSpells(es, d, ks, name, 0);
    assert ks[0..] == ks;
  }

  /** In any directory: an empty root always answers with itself, and any other empty directory
      answers with the root when that is the name asked for. */
  lemma LookupIsFirstMatchIff(es: seq<Entry>, name: CString, d: nat)
    requires TreeOk(es) && d < |es| && InUse(es[d]) && IsDir(es[d])
    ensures Lookup(es, name, d) == FirstMatch(es, name, Kids(es, d)) <==>
              Kids(es, d) != [] || (d != 0 && !Named(es, 0, name))
  {
    if Kids(es, d) != [] {
      LookupIsFirstMatch(es, name, d);
    } else {
      hide TextOf; hide KidsBelow; hide IsDir; hide Kids;
      assert DirectoryOk(es, d);
      assert es[d].start == 0;
    }
  }

  // ---------------------------------------------------------------------------------
  // Splitting a path
  // ---------------------------------------------------------------------------------

  /** The first slash at or after i, or the end. */
  function Cut(s: seq<Byte>, i: nat): (k: nat)
    requires i <= |s|
    ensures i <= k <= |s| && (k < |s| ==> s[k] == SLASH) && forall j :: i <= j < k ==> s[j] != SLASH
    decreases |s| - i
  {
    if i == |s| || s[i] == SLASH then i else Cut(s, i + 1)
  }

  /** The components between slashes. */
  function Split(s: CString): seq<CString>
    decreases |s|
  {
    var k := Cut(s, 0);
    if k == |s| then [s] else [s[..k]] + Split(s[k + 1..])
  }

  /** The components as the scanning loop takes them: the first character of every component
      but the first is not looked at.  With nothing there, the loop runs past the string. */
  function Scanned(s: CString, from: nat): Option<seq<CString>>
    requires from <= 1
    decreases |s|
  {
    if from > |s| then None
    else
      var k := Cut(s, from);
      if k == |s| then Some([s])
      else match Scanned(s[k + 1..], 1)
        case None => None
        case Some(rest) => Some([s[..k]] + rest)
  }

  /** One leading slash does not count. */
  function Stripped(path: CString): CString {
    if path != [] && path[0] == SLASH then path[1..] else path
  }

  lemma CutSkips(s: seq<Byte>)
    requires s != [] && s[0] != SLASH
    ensures Cut(s, 0) == Cut(s, 1)
  {
  }

  predicate NoneEmpty(parts: seq<CString>, from: nat) {
    forall j :: from <= j < |parts| ==> parts[j] != []
  }

  lemma SameTail(a: CString, x: seq<CString>, y: seq<CString>)
    ensures [a] + x == [a] + y <==> x == y
    ensures NoneEmpty([a] + x, 1) <==> NoneEmpty(x, 0)
    ensures NoneEmpty([a] + x, 0) <==> a != [] && NoneEmpty(x, 0)
  {
    assert ([a] + x)[1..] == x && ([a] + y)[1..] == y;
    forall j | 0 <= j < |x| ensures ([a] + x)[j + 1] == x[j] {
    }
    if NoneEmpty([a] + x, 1) || NoneEmpty([a] + x, 0) {
      forall j | 0 <= j < |x| ensures x[j] != [] {
        assert ([a] + x)[j + 1] == x[j];
      }
    }
    if NoneEmpty([a] + x, 0) {
      assert ([a] + x)[0] == a;
    }
  }

  /** Both ways of taking a path apart, at a first component that they agree on. */
  lemma FirstPart(s: CString, from: nat)
    requires from <= 1 && (from == 1 ==> s != [] && s[0] != SLASH)
    ensures var k := Cut(s, 0);
            && (from == 1 ==> k > 0)
            && if k == |s| then Scanned(s, from) == Some([s]) && Split(s) == [s]
               else var rest: CString := s[k + 1..];
                    && Split(s) == [s[..k]] + Split(rest)
                    && Scanned(s, from) == match Scanned(rest, 1) case None => None case Some(x) => Some([s[..k]] + x)
  {
    if from == 1 {
      CutSkips(s);
    }
  }

  /** The loop takes a path apart at its slashes exactly when no component after the first is
      empty: no two slashes in a row, and none at the end. */
  lemma {:induction false} ScannedIsSplitIff(s: CString, from: nat)
    requires from <= 1
    ensures Scanned(s, from) == Some(Split(s)) <==> NoneEmpty(Split(s), 1 - from)
    decreases |s|
  {
    hide NoneEmpty; hide Cut; hide Scanned; hide Split;
    if from == 1 && (s == [] || s[0] == SLASH) {
      EmptyFirst(s);
    } else {
      FirstPart(s, from);
      var k := Cut(s, 0);
      if k < |s| {
        var first: CString, rest: CString := s[..k], s[k + 1..];
        ScannedIsSplitIff(rest, 1);
        var scanned := match Scanned(rest, 1) case None => [] case Some(x) => x;
        SameTail(first, scanned, Split(rest));
        SameTail(first, Split(rest), Split(rest));
      } else {
        OneComponent(s);
      }
    }
  }

  lemma OneComponent(s: CString)
    ensures NoneEmpty([s], 1) && (NoneEmpty([s], 0) <==> s != [])
  {
    assert [s][0] == s;
  }

  lemma EmptyFirst(s: CString)
    requires s == [] || s[0] == SLASH
    ensures Scanned(s, 1) != Some(Split(s)) && !NoneEmpty(Split(s), 0)
  {
    var parts := Split(s);
    assert parts[0] == [];
    if Scanned(s, 1).Some? {
      assert Scanned(s, 1).value[0] != [];
    }
  }

  // ---------------------------------------------------------------------------------
  // Resolving a path
  // ---------------------------------------------------------------------------------

  /** Looking up one component after another, as GemFS_Directory_to_Index does. */
  function Resolve(es: seq<Entry>, parts: seq<CString>, d: nat): Option<nat>
    decreases |parts|
  {
    if parts == [] then Some(d)
    else if d >= |es| then None
    else match Lookup(es, parts[0], d)
      case None => None
      case Some(k) => Resolve(es, parts[1..], k)
  }

  /** Following first matches among children. */
  function Fold(es: seq<Entry>, parts: seq<CString>, d: nat): Option<nat>
    decreases |parts|
  {
    if parts == [] then Some(d)
    else match FirstMatch(es, parts[0], Kids(es, d))
      case None => None
      case Some(k) => Fold(es, parts[1..], k)
  }

  /** Every lookup on the way is in a directory. */
  ghost predicate ThroughDirectories(es: seq<Entry>, parts: seq<CString>, d: nat)
    decreases |parts|
  {
    parts == [] || (
      && d < |es| && InUse(es[d]) && IsDir(es[d])
      && match Lookup(es, parts[0], d)
         case None => true
         case Some(k) => ThroughDirectories(es, parts[1..], k))
  }

  /** ... that has children. */
  ghost predicate ThroughParents(es: seq<Entry>, parts: seq<CString>, d: nat)
    decreases |parts|
  {
    parts == [] || (
      && d < |es| && InUse(es[d]) && IsDir(es[d]) && Kids(es, d) != []
      && match FirstMatch(es, parts[0], Kids(es, d))
         case None => true
         case Some(k) => ThroughParents(es, parts[1..], k))
  }

  /** Path resolution is a fold of first matches. */
  lemma {:induction false} ResolveIsFold(es: seq<Entry>, parts: seq<CString>, d: nat)
    requires TreeOk(es) && ThroughParents(es, parts, d)
    ensures ThroughDirectories(es, parts, d) && Resolve(es, parts, d) == Fold(es, parts, d)
    decreases |parts|
  {
    hide TreeOk; hide Kids; hide FirstMatch; hide Lookup; hide InUse; hide IsDir;
    if parts != [] {
      LookupIsFirstMatch(es, parts[0], d);
      match FirstMatch(es, parts[0], Kids(es, d))
      case None =>
      case Some(k) => ResolveIsFold(es, parts[1..], k);
    }
  }

  // ---------------------------------------------------------------------------------
  // Paths after GemFS_mkdir
  // ---------------------------------------------------------------------------------

  lemma {:induction false} FirstMatchIn(es: seq<Entry>, name: CString, ks: seq<nat>)
    ensures FirstMatch(es, name, ks).Some? ==> FirstMatch(es, name, ks).value in ks
    decreases |ks|
  {
    hide Named;
    if ks != [] {
      FirstMatchIn(es, name, ks[1..]);
    }
  }

  lemma {:induction false} FirstMatchSame(es: seq<Entry>, es': seq<Entry>, name: CString, ks: seq<nat>)
    requires forall k :: k in ks ==> Named(es', k, name) == Named(es, k, name)
    ensures FirstMatch(es', name, ks) == FirstMatch(es, name, ks)
    decreases |ks|
  {
    hide Named;
    if ks != [] {
      assert ks[0] in ks;
      FirstMatchSame(es, es', name, ks[1..]);
    }
  }

  lemma {:induction false} FirstMatchAppend(es: seq<Entry>, name: CString, ks: seq<nat>, k: nat)
    ensures FirstMatch(es, name, ks + [k]) ==
              if FirstMatch(es, name, ks).Some? then FirstMatch(es, name, ks)
              else if Named(es, k, name) then Some(k) else None
    decreases |ks|
  {
    hide Named;
    if ks == [] {
      assert ([] + [k])[1..] == [];
      assert ks + [k] == [k];
    } else {
      assert (ks + [k])[1..] == ks[1..] + [k];
      FirstMatchAppend(es, name, ks[1..], k);
    }
  }

  /** r has one more child than es, entry `free`, under `parent`. */
  ghost predicate OneMore(es: seq<Entry>, r: seq<Entry>, parent: nat, free: nat) {
    && (forall d: nat :: Kids(r, d) == if d == parent then Kids(es, d) + [free] else Kids(es, d))
    && forall k: nat :: k < |es| && InUse(es[k]) ==>
         k < |r| && InUse(r[k]) && IsDir(r[k]) == IsDir(es[k]) && r[k].name == es[k].name
  }

  lemma MatchKept(es: seq<Entry>, r: seq<Entry>, parent: nat, free: nat, name: CString, d: nat)
    requires OneMore(es, r, parent, free)
    ensures FirstMatch(es, name, Kids(es, d)).Some? ==>
              FirstMatch(r, name, Kids(r, d)) == FirstMatch(es, name, Kids(es, d))
    ensures FirstMatch(es, name, Kids(es, d)) == None && d == parent && Named(r, free, name) ==>
              FirstMatch(r, name, Kids(r, d)) == Some(free)
  {
    hide FirstMatch; hide TextOf; hide InUse; hide IsDir; hide KidsBelow;
    var ks := Kids(es, d);
    KidsSpec(es, d, |es|);
    forall k | k in ks ensures Named(r, k, name) == Named(es, k, name) {
      assert IsChild(es[k], d);
    }
    hide Kids; hide Named;
    FirstMatchSame(es, r, name, ks);
    FirstMatchAppend(r, name, ks, free);
  }

  lemma {:induction false} FoldKept(es: seq<Entry>, r: seq<Entry>, parent: nat, free: nat, parts: seq<CString>, d: nat)
    requires OneMore(es, r, parent, free) && ThroughParents(es, parts, d) && Fold(es, parts, d).Some?
    ensures ThroughParents(r, parts, d) && Fold(r, parts, d) == Fold(es, parts, d)
    decreases |parts|
  {
    hide FirstMatch; hide InUse; hide IsDir; hide Kids;
    if parts != [] {
      MatchKept(es, r, parent, free, parts[0], d);
      assert Kids(r, d) != [];
      FoldKept(es, r, parent, free, parts[1..], FirstMatch(es, parts[0], Kids(es, d)).value);
    }
  }

  lemma {:induction false} FoldAppend(es: seq<Entry>, parts: seq<CString>, name: CString, d: nat, p: nat)
    requires ThroughParents(es, parts, d) && Fold(es, parts, d) == Some(p)
    requires p < |es| && InUse(es[p]) && IsDir(es[p]) && Kids(es, p) != []
    ensures ThroughParents(es, parts + [name], d) && Fold(es, parts + [name], d) == FirstMatch(es, name, Kids(es, p))
    decreases |parts|
  {
    hide FirstMatch; hide InUse; hide IsDir; hide Kids;
    if parts == [] {
      assert parts + [name] == [name] && [name][1..] == [];
    } else {
      assert (parts + [name])[1..] == parts[1..] + [name];
      FoldAppend(es, parts[1..], name, FirstMatch(es, parts[0], Kids(es, d)).value, p);
    }
  }

  /** A directory made under a fresh name is found by its path, and paths that resolved before
      resolve to what they did. */
  lemma MkdirResolves(t: Layout, parts: seq<CString>, parent: nat, flags: Byte, name: CString)
    requires LayoutOk(t) && Fits(t, parent, flags, 0)
    requires |name| < NAME_BYTES && FirstMatch(t.es, name, Kids(t.es, parent)) == None
    requires ThroughParents(t.es, parts, 0) && Fold(t.es, parts, 0) == Some(parent)
    ensures var r := Mkdir(t, parent, flags, Padded(name));
            && Resolve(r.es, parts + [name], 0) == Some(NextIndex(t))
            && forall path: seq<CString> :: ThroughParents(t.es, path, 0) && Resolve(t.es, path, 0).Some? ==>
                 Resolve(r.es, path, 0) == Resolve(t.es, path, 0)
  {
    hide LayoutOk; hide Fits; hide Mkdir; hide Padded; hide OneMore; hide ThroughParents; hide TextOf; hide FirstMatch;
    hide TreeOk; hide Kids; hide InUse; hide IsDir; hide NextIndex; hide Resolve; hide Fold;
    MkdirOneMore(t, parent, flags, Padded(name));
    PaddedText(name);
    var r := Mkdir(t, parent, flags, Padded(name));
    NewPath(t.es, r.es, parent, NextIndex(t), parts, name);
    forall path: seq<CString> | ThroughParents(t.es, path, 0) && Resolve(t.es, path, 0).Some?
      ensures Resolve(r.es, path, 0) == Resolve(t.es, path, 0) {
      OldPath(t.es, r.es, parent, NextIndex(t), path);
    }
  }

  /** So is a file. */
  lemma CreateFileResolves(t: Layout, parts: seq<CString>, parent: nat, flags: Byte, name: CString, size: nat)
    requires LayoutOk(t) && Fits(t, parent, flags, size) && flags / 16 % 2 == 0
    requires |name| < NAME_BYTES && FirstMatch(t.es, name, Kids(t.es, parent)) == None
    requires ThroughParents(t.es, parts, 0) && Fold(t.es, parts, 0) == Some(parent)
    ensures var r := CreateFile(t, parent, flags, Padded(name), size);
            && Resolve(r.es, parts + [name], 0) == Some(NextIndex(t)) && IsFile(r.es, NextIndex(t))
            && forall path: seq<CString> :: ThroughParents(t.es, path, 0) && Resolve(t.es, path, 0).Some? ==>
                 Resolve(r.es, path, 0) == Resolve(t.es, path, 0)
  {
    hide LayoutOk; hide Fits; hide CreateFile; hide Padded; hide OneMore; hide ThroughParents; hide TextOf; hide FirstMatch;
    hide TreeOk; hide Kids; hide InUse; hide IsDir; hide NextIndex; hide Resolve; hide Fold;
    CreateFileOneMore(t, parent, flags, Padded(name), size);
    PaddedText(name);
    var r := CreateFile(t, parent, flags, Padded(name), size);
    NewPath(t.es, r.es, parent, NextIndex(t), parts, name);
    forall path: seq<CString> | ThroughParents(t.es, path, 0) && Resolve(t.es, path, 0).Some?
      ensures Resolve(r.es, path, 0) == Resolve(t.es, path, 0) {
      OldPath(t.es, r.es, parent, NextIndex(t), path);
    }
  }

  lemma CreateFileOneMore(t: Layout, parent: nat, flags: Byte, name: Name, size: nat)
    requires LayoutOk(t) && Fits(t, parent, flags, size) && flags / 16 % 2 == 0
    ensures var r := CreateFile(t, parent, flags, name, size);
            && OneMore(t.es, r.es, parent, NextIndex(t)) && TreeOk(r.es) && TreeOk(t.es)
            && NextIndex(t) < |r.es| && r.es[NextIndex(t)].name == name && IsFile(r.es, NextIndex(t))
            && parent < |r.es| && InUse(r.es[parent]) && IsDir(r.es[parent]) && Kids(r.es, parent) != []
  {
    hide *;
    CreateFileOk(t, parent, flags, name, size);
    CreateFileAdds(t, parent, flags, name, size);
    UsedBelowNext(t);
    ParentUsed(t, parent, flags, size);
    LayoutTree(t);
    LayoutTree(CreateFile(t, parent, flags, name, size));
    OneMoreOf(t, CreateFile(t, parent, flags, name, size), parent, flags, name, size);
  }

  lemma LayoutTree(t: Layout)
    requires LayoutOk(t)
    ensures TreeOk(t.es)
  {
  }

  lemma OneMoreOf(t: Layout, r: Layout, parent: nat, flags: Byte, name: Name, size: nat)
    requires t.top < TWO_64 && size < TWO_64 && NextIndex(t) < TWO_64 && parent < TWO_64 && flags / 16 % 2 == 0
    requires Added(t, r, Entry(t.top, size, NextIndex(t), parent, 0, 0, flags, 0, name), size) && InUse(r.es[NextIndex(t)])
    requires forall k: nat :: k < |t.es| ==> (InUse(t.es[k]) <==> k < NextIndex(t))
    requires forall d :: Kids(r.es, d) == if d == parent then Kids(t.es, d) + [NextIndex(t)] else Kids(t.es, d)
    requires parent < NextIndex(t) && parent < |t.es| && IsDir(t.es[parent])
    ensures OneMore(t.es, r.es, parent, NextIndex(t)) && NextIndex(t) < |r.es| && r.es[NextIndex(t)].name == name
    ensures IsFile(r.es, NextIndex(t))
    ensures parent < |r.es| && InUse(r.es[parent]) && IsDir(r.es[parent]) && Kids(r.es, parent) != []
  {
    hide Kids; hide OnlyLinksDiffer; hide InUse; hide IsDir; hide NextIndex; hide Full;
    FlagsOf(r.es[NextIndex(t)], flags);
    forall k: nat | k < NextIndex(t)
      ensures InUse(r.es[k]) == InUse(t.es[k]) && IsDir(r.es[k]) == IsDir(t.es[k]) && r.es[k].name == t.es[k].name {
      SameUse(t.es[k], r.es[k]);
      SameName(t.es[k], r.es[k]);
    }
  }

  lemma ParentUsed(t: Layout, parent: nat, flags: Byte, size: nat)
    requires LayoutOk(t) && Fits(t, parent, flags, size)
    ensures parent < NextIndex(t) < TWO_64 && parent < |t.es| && IsDir(t.es[parent]) && t.top + size < TWO_64
  {
  }

  lemma PaddedText(name: CString)
    requires |name| < NAME_BYTES
    ensures TextOf(Padded(name)) == name
  {
    TextOfPadded(name, NAME_BYTES - |name|);
  }

  lemma NewPath(es: seq<Entry>, r: seq<Entry>, parent: nat, free: nat, parts: seq<CString>, name: CString)
    requires TreeOk(es) && TreeOk(r) && OneMore(es, r, parent, free) && Named(r, free, name)
    requires FirstMatch(es, name, Kids(es, parent)) == None
    requires ThroughParents(es, parts, 0) && Fold(es, parts, 0) == Some(parent)
    requires parent < |r| && InUse(r[parent]) && IsDir(r[parent]) && Kids(r, parent) != []
    ensures Resolve(r, parts + [name], 0) == Some(free)
  {
    hide TreeOk; hide Kids; hide InUse; hide IsDir; hide Named; hide FirstMatch; hide OneMore; hide ThroughParents;
    hide Resolve; hide Fold;
    MatchKept(es, r, parent, free, name, parent);
    FoldKept(es, r, parent, free, parts, 0);
    FoldAppend(r, parts, name, 0, parent);
    ResolveIsFold(r, parts + [name], 0);
  }

  lemma OldPath(es: seq<Entry>, r: seq<Entry>, parent: nat, free: nat, path: seq<CString>)
    requires TreeOk(es) && TreeOk(r) && OneMore(es, r, parent, free)
    requires ThroughParents(es, path, 0) && Resolve(es, path, 0).Some?
    ensures Resolve(r, path, 0) == Resolve(es, path, 0)
  {
    hide TreeOk; hide Kids; hide OneMore; hide ThroughParents; hide Resolve; hide Fold;
    ResolveIsFold(es, path, 0);
    FoldKept(es, r, parent, free, path, 0);
    ResolveIsFold(r, path, 0);
  }

  lemma MkdirOneMore(t: Layout, parent: nat, flags: Byte, name: Name)
    requires LayoutOk(t) && Fits(t, parent, flags, 0)
    ensures var r := Mkdir(t, parent, flags, name);
            && OneMore(t.es, r.es, parent, NextIndex(t)) && TreeOk(r.es) && TreeOk(t.es)
            && NextIndex(t) < |r.es| && r.es[NextIndex(t)].name == name
            && parent < |r.es| && InUse(r.es[parent]) && IsDir(r.es[parent]) && Kids(r.es, parent) != []
  {
    hide TreeOk; hide Kids; hide WithFree; hide AddChild; hide OnlyLinksDiffer;
    MkdirEntries(t, parent, flags, name, 0);
    var r, free := Mkdir(t, parent, flags, name), NextIndex(t);
    UsedBelowNext(t);
    hide InUse; hide IsDir; hide ExtentsOk; hide ChainOk;
    forall k: nat | k < free ensures InUse(r.es[k]) == InUse(t.es[k]) && IsDir(r.es[k]) == IsDir(t.es[k]) && r.es[k].name == t.es[k].name {
      SameUse(t.es[k], r.es[k]);
      SameName(t.es[k], r.es[k]);
    }
  }

  lemma UsedBelowNext(t: Layout)
    requires LayoutOk(t)
    ensures NextIndex(t) <= |t.es| && forall k: nat :: k < |t.es| ==> (InUse(t.es[k]) <==> k < NextIndex(t))
  {
  }

  lemma SameName(e: Entry, e': Entry)
    requires OnlyLinksDiffer(e, e')
    ensures e'.name == e.name
  {
    assert e'.(start := 0, sibling := 0).name == e'.name && e.(start := 0, sibling := 0).name == e.name;
  }
}
