/**
  GemFS name comparison, child lookup and the path scanning loop, on a volume.
 */
module GemfsPaths {
  import opened Wrappers
  import opened ByteMemory
  import opened GemfsCodec
  import opened GemfsTree
  import opened GemfsLayout
  import opened GemfsVolume
  import opened GemfsFiles
  import opened GemfsDriver
  import opened GemfsNames

  const SCAN_BYTES: nat := 128

  lemma {:induction false} TextOfPrefix(s: seq<Byte>, n: nat)
    requires n <= |s| && (forall i :: 0 <= i < n ==> s[i] != 0) && (n < |s| ==> s[n] == 0)
    ensures TextOf(s) == s[..n]
    decreases n
  {
    if n > 0 {
      assert s[1..][..n - 1] == s[1..n];
      forall i | 0 <= i < n - 1 ensures s[1..][i] != 0 {
        assert s[1..][i] == s[i + 1];
      }
      TextOfPrefix(s[1..], n - 1);
      assert s[..n] == [s[0]] + s[1..n];
    }
  }

  /** calculate_string_length.  The source reads on past a buffer without a terminator; here it
      stops, at a length that no scanned name has. */
  method StringLength(s: seq<Byte>) returns (n: nat)
    ensures n <= |s| && TextOf(s) == s[..n]
  {
    n := 0;
    while n < |s| && s[n] != 0
      invariant n <= |s| && forall i :: 0 <= i < n ==> s[i] != 0
    {
      n := n + 1;
    }
    TextOfPrefix(s, n);
  }

  /** GemFS_Names_Equal, which stops early where both names end. */
  method NamesEqual(a: seq<Byte>, b: seq<Byte>, len1: nat, len2: nat) returns (r: bool)
    requires len1 <= |a| && len2 <= |b|
    ensures 0 !in a[..len1] ==> r == (a[..len1] == b[..len2])
  {
    if len1 != len2 {
      return false;
    }
    for i := 0 to len1
      invariant forall j :: 0 <= j < i ==> a[j] == b[j]
    {
      if a[i] == 0 && b[i] == 0 {
        assert a[..len1][i] == 0;
        return true;
      } else if a[i] != b[i] {
        assert a[..len1][i] != b[..len2][i];
        return false;
      }
    }
    return true;
  }

  method Matches(name: seq<Byte>, e: Entry) returns (r: bool)
    ensures r == (TextOf(e.name) == TextOf(name))
  {
    var len1 := StringLength(name);
    var len2 := StringLength(e.name);
    r := NamesEqual(name, e.name, len1, len2);
  }

  // ---------------------------------------------------------------------------------
  // Lookup
  // ---------------------------------------------------------------------------------

  /** What the walk needs at entry i: the sibling links lead upwards to entries that exist. */
  ghost predicate Upwards(v: Vol, i: nat) {
    && i < |v.chain| && Reachable(v, i)
    && (EntryOf(v, i).sibling != 0 ==> i < EntryOf(v, i).sibling < |v.chain|)
  }

  /** ... from any child of d, and from the root, which a lookup in an empty directory reads. */
  ghost predicate LeadsUp(v: Vol, ks: seq<nat>) {
    && (forall k :: k in ks || k == 0 ==> Upwards(v, k))
    && (forall k :: k in ks && k < |v.chain| && EntryOf(v, k).sibling != 0 ==> EntryOf(v, k).sibling in ks)
    && 0 < |v.chain| && EntryOf(v, 0).sibling == 0
  }

  lemma SiblingsLeadUp(v: Vol, d: nat)
    requires VolumeOk(v) && d < |v.chain| && InUse(Entries(v)[d]) && IsDir(Entries(v)[d])
    ensures EntryOf(v, d).index == d && (EntryOf(v, d).start == 0 || EntryOf(v, d).start in Kids(Entries(v), d))
    ensures LeadsUp(v, Kids(Entries(v), d))
  {
    hide LayoutOk; hide Kids; hide InUse; hide IsDir; hide Reachable; hide Valid; hide TreeOk; hide EntryOf;
    var es := Entries(v);
    TreeOf(v);
    assert es[d] == Meta(EntryOf(v, d)) && es[0] == Meta(EntryOf(v, 0));
    if es[d].start != 0 {
      StartIsKid(es, d);
      SiblingIsKid(es, d, es[d].start);
    }
    forall k | k in Kids(es, d)
      ensures Upwards(v, k) && (EntryOf(v, k).sibling != 0 ==> EntryOf(v, k).sibling in Kids(es, d)) {
      SiblingIsKid(es, d, k);
      assert es[k] == Meta(EntryOf(v, k));
    }
  }

  lemma TreeOf(v: Vol)
    requires VolumeOk(v)
    ensures TreeOk(Entries(v)) && Entries(v)[0].sibling == 0 && 1 <= |v.chain|
    ensures forall k :: 0 <= k < |v.chain| ==> Reachable(v, k) && (InUse(Entries(v)[k]) ==> Entries(v)[k].index == k)
  {
    hide DirectoryOk; hide EntryOf; hide InUse; hide IsDir; hide ExtentsOk; hide Linked;
  }

  /** GemFS_Find_Index_By_Name */
  method FindIndexByName(vol: Volume, name: seq<Byte>, parent: nat) returns (r: Option<nat>)
    requires VolumeOk(vol.State()) && parent < |vol.chain|
    requires InUse(Entries(vol.State())[parent]) && IsDir(Entries(vol.State())[parent])
    modifies vol
    ensures vol.State() == old(vol.State()) && r == Lookup(Entries(vol.State()), TextOf(name), parent)
  {
    hide VolumeOk; hide Kids; hide InUse; hide IsDir; hide Reachable; hide EntryOf; hide TextOf; hide Extended;
    ghost var v := vol.State();
    ghost var es := Entries(v);
    SiblingsLeadUp(v, parent);
    TreeReachable(v);
    var p := vol.ReadEntry(parent);
    assert es[parent] == Meta(p);
    if p.start == p.index {
      return Some(0);
    }
    var cur := vol.ReadEntry(p.start);
    ghost var c: nat := p.start;
    var same := Matches(name, cur);
    while !same && cur.sibling != 0
      invariant vol.State() == v && c < |v.chain| && cur == EntryOf(v, c) && (c == 0 || c in Kids(es, parent))
      invariant same == (TextOf(cur.name) == TextOf(name))
      invariant LookupFrom(es, TextOf(name), p.start) == LookupFrom(es, TextOf(name), c)
      decreases |v.chain| - c
    {
      assert es[c] == Meta(cur);
      c := cur.sibling;
      cur := vol.ReadEntry(cur.sibling);
      same := Matches(name, cur);
    }
    assert es[c] == Meta(cur);
    if cur.sibling == 0 && !same {
      return None;
    }
    return Some(cur.index);
  }

  lemma TreeReachable(v: Vol)
    requires VolumeOk(v)
    ensures forall k :: 0 <= k < |v.chain| ==> Reachable(v, k)
  {
    hide LayoutOk; hide Valid; hide Reachable;
    TreeOf(v);
  }

  // ---------------------------------------------------------------------------------
  // Paths
  // ---------------------------------------------------------------------------------

  /** The scan buffer holds 127 characters and a terminator. */
  predicate PartsFit(parts: seq<CString>) {
    forall j :: 0 <= j < |parts| ==> |parts[j]| < SCAN_BYTES
  }

  lemma {:induction false} CutIs(s: seq<Byte>, from: nat, k: nat)
    requires from <= k <= |s| && (forall j :: from <= j < k ==> s[j] != SLASH) && (k < |s| ==> s[k] == SLASH)
    ensures Cut(s, from) == k
    decreases k - from
  {
    if from < k {
      CutIs(s, from + 1, k);
    }
  }

  /** What is left to resolve when the loop is at a component that starts at `last`: the path
      from there on comes out as `r`. */
  ghost predicate Pending(es: seq<Entry>, path: CString, last: nat, from: nat, d: nat, r: Option<nat>) {
    && from <= 1 && last <= |path|
    && var parts := Scanned(path[last..], from);
       parts.Some? && PartsFit(parts.value) && ThroughDirectories(es, parts.value, d) && Resolve(es, parts.value, d) == r
  }

  /** The loop has reached the end of a component. */
  lemma PartEnds(es: seq<Entry>, path: CString, last: nat, from: nat, d: nat, r: Option<nat>, i: nat)
    requires Pending(es, path, last, from, d, r) && last + from <= i <= |path|
    requires (forall j :: last + from <= j < i ==> path[j] != SLASH) && (i < |path| ==> path[i] == SLASH)
    ensures d < |es| && InUse(es[d]) && IsDir(es[d])
    ensures match Lookup(es, path[last..i], d)
            case None => r == None
            case Some(k) => if i == |path| then r == Some(k) else i + 1 < |path| && Pending(es, path, i + 1, 1, k, r)
  {
    hide Lookup; hide IsDir; hide InUse; hide Cut;
    var s := path[last..];
    var k := i - last;
    forall j | from <= j < k ensures s[j] != SLASH {
      assert s[j] == path[last + j];
    }
    CutIs(s, from, k);
    var parts := Scanned(s, from).value;
    assert s[..k] == path[last..i];
    if i == |path| {
      assert parts == [s] && s == path[last..i];
      assert parts[1..] == [];
      assert Resolve(es, parts, d) == match Lookup(es, parts[0], d) case None => None case Some(n) => Resolve(es, [], n);
    } else {
      assert s[k + 1..] == path[i + 1..];
      var rest := Scanned(path[i + 1..], 1).value;
      assert parts == [path[last..i]] + rest && parts[1..] == rest;
      forall j | 0 <= j < |rest| ensures |rest[j]| < SCAN_BYTES {
        assert rest[j] == parts[j + 1];
      }
    }
  }

  /** Short of the end of a component there is room in the buffer. */
  lemma PartFits(es: seq<Entry>, path: CString, last: nat, from: nat, d: nat, r: Option<nat>, i: nat)
    requires Pending(es, path, last, from, d, r) && last + from <= i <= |path|
    requires forall j :: last + from <= j < i ==> path[j] != SLASH
    ensures i - last < SCAN_BYTES
  {
    hide Lookup; hide ThroughDirectories; hide Resolve;
    var s := path[last..];
    var parts := Scanned(s, from).value;
    var k := Cut(s, from);
    assert k < |s| ==> s[k] == path[last + k];
    assert |parts[0]| == k;
  }

  /** No component after the first is missing, all fit the buffer, and every component is looked
      up in a directory. */
  ghost predicate Scannable(es: seq<Entry>, path: CString) {
    var parts := Scanned(Stripped(path), 0);
    parts.Some? && PartsFit(parts.value) && ThroughDirectories(es, parts.value, 0)
  }

  lemma PaddedEmpty()
    ensures Padded([]) == NO_NAME
  {
  }

  lemma PaddedAppend(name: CString, c: Byte)
    requires |name| < NAME_BYTES
    ensures Padded(name + [c]) == Padded(name)[|name| := c]
  {
  }

  lemma PendingStart(es: seq<Entry>, path: CString, last: nat)
    requires Scannable(es, path) && last == if path != [] && path[0] == SLASH then 1 else 0
    ensures Pending(es, path, last, 0, 0, Resolve(es, Scanned(Stripped(path), 0).value, 0))
  {
    assert path[last..] == Stripped(path);
  }

  /** GemFS_Directory_to_Index, with the scan buffer clear at first. */
  method DirectoryToIndex(vol: Volume, path: CString) returns (r: Option<nat>)
    requires VolumeOk(vol.State())
    requires Scannable(Entries(vol.State()), path)
    modifies vol
    ensures vol.State() == old(vol.State())
    ensures r == Resolve(Entries(vol.State()), Scanned(Stripped(path), 0).value, 0)
  {
    hide VolumeOk; hide InUse; hide IsDir; hide TextOf; hide Lookup; hide ThroughDirectories; hide Resolve;
    hide Scanned; hide Pending; hide PartsFit; hide Padded; hide Stripped; hide EntryOf;
    ghost var es := Entries(vol.State());
    assert |es| == |vol.chain|;
    hide Entries;
    ghost var result := Resolve(es, Scanned(Stripped(path), 0).value, 0);
    var i, last, index := 0, 0, 0;
    ghost var from := 0;
    var scan: Name := NO_NAME;
    if path != [] && path[0] == SLASH {
      i := 1;
      last := 1;
    }
    PendingStart(es, path, last);
    hide Scannable;
    PaddedEmpty();
    assert path[last..i] == [];
    while true
      invariant vol.State() == old(vol.State())
      invariant Pending(es, path, last, from, index, result)
      invariant last + from <= i <= |path|
      invariant forall j :: last + from <= j < i ==> path[j] != SLASH
      invariant i - last < SCAN_BYTES && scan == Padded(path[last..i])
      decreases |path| - i
    {
      if i == |path| || path[i] == SLASH {
        PartEnds(es, path, last, from, index, result, i);
        PaddedText(path[last..i]);
        var found := FindIndexByName(vol, scan, index);
        if found == None {
          return None;
        }
        index := found.value;
        scan := NO_NAME;
        PaddedEmpty();
        if i == |path| {
          break;
        }
        i := i + 1;
        last := i;
        from := 1;
      }
      PaddedAppend(path[last..i], path[i]);
      scan := scan[i - last := path[i]];
      assert path[last..i + 1] == path[last..i] + [path[i]];
      i := i + 1;
      PartFits(es, path, last, from, index, result, i);
    }
    return Some(index);
  }

  /** For a path with no empty component after the first, through directories with children,
      what the loop resolves is the fold of first matches over the path's components. */
  lemma PathIsFold(es: seq<Entry>, path: CString)
    requires TreeOk(es) && ThroughParents(es, Split(Stripped(path)), 0)
    requires NoneEmpty(Split(Stripped(path)), 1) && PartsFit(Split(Stripped(path)))
    ensures Scannable(es, path)
    ensures Resolve(es, Scanned(Stripped(path), 0).value, 0) == Fold(es, Split(Stripped(path)), 0)
  {
    hide TreeOk; hide ThroughParents; hide ThroughDirectories; hide Resolve; hide Fold; hide PartsFit; hide NoneEmpty;
    hide Split; hide Scanned;
    ScannedIsSplitIff(Stripped(path), 0);
    ResolveIsFold(es, Split(Stripped(path)), 0);
  }
}
