/**
  The initial user stack (SetupTaskStack in src/kernel/drivers/Userland/Tasks.c): argument
  strings, argument pointers, argument count, as in section 3.4.1 of the System V AMD64 ABI.
 */
module ArgStack {
  import opened Registers
  import opened ByteMemory

  // ---------------------------------------------------------------------------------
  // Layout
  // ---------------------------------------------------------------------------------

  /** The bytes taken by strings i and up, terminators included. */
  function StringBytes(argv: seq<CString>, i: nat): nat
    requires i <= |argv|
    decreases |argv| - i
  {
    if i == |argv| then 0 else |argv[i]| + 1 + StringBytes(argv, i + 1)
  }

  /** Everything SetupTaskStack pushes: strings, pointers with a null, and the count. */
  function StackBytes(argv: seq<CString>): nat {
    8 + 8 * (|argv| + 1) + StringBytes(argv, 0)
  }

  /** Where string i goes when the stack started at top. */
  function StringAddress(argv: seq<CString>, top: nat, i: nat): int
    requires i <= |argv|
  {
    top - StringBytes(argv, i)
  }

  /** The terminated string s lies at address a. */
  ghost predicate StringAt(m: Bytes, a: int, s: CString) {
    && 0 <= a
    && (forall j :: 0 <= j < |s| ==> Get(m, a + j) == s[j])
    && Get(m, a + |s|) == 0
  }

  lemma {:induction false} StringBytesMonotone(argv: seq<CString>, i: nat, k: nat)
    requires i <= k <= |argv|
    ensures StringBytes(argv, k) <= StringBytes(argv, i)
    ensures i < k ==> StringBytes(argv, k) + |argv[i]| + 1 <= StringBytes(argv, i)
    decreases k - i
  {
    if i < k {
      StringBytesMonotone(argv, i + 1, k);
    }
  }

  lemma StringKept(m: Bytes, m': Bytes, a: int, s: CString)
    requires StringAt(m, a, s) && SameBytes(m, m', a, |s| + 1)
    ensures StringAt(m', a, s)
  {
    hide Get;
  }

  // ---------------------------------------------------------------------------------
  // The three pushing loops
  // ---------------------------------------------------------------------------------

  /** The inner loop: one string, copied from its terminator backwards. */
  method PushString(m0: Bytes, top: nat, s: CString) returns (m: Bytes, a: nat)
    requires |s| + 1 <= top
    ensures a == top - |s| - 1 && StringAt(m, a, s)
    ensures forall x: nat :: x < a || top <= x ==> Get(m, x) == Get(m0, x)
  {
    m := m0[top - 1 := 0];
    a := top - 1;
    var j := |s|;
    while j > 0
      invariant 0 <= j <= |s| && a == top - 1 - (|s| - j)
      invariant forall i :: j <= i < |s| ==> Get(m, a + (i - j)) == s[i]
      invariant Get(m, top - 1) == 0
      invariant forall x: nat :: x < a || top <= x ==> Get(m, x) == Get(m0, x)
    {
      j := j - 1;
      a := a - 1;
      m := m[a := s[j]];
    }
  }

  /** String k is in place, and its address recorded. */
  ghost predicate Placed(m: Bytes, top: nat, argv: seq<CString>, pointers: seq<U64>, k: nat)
    requires |pointers| == |argv| + 1 && k < |argv|
  {
    pointers[k] == StringAddress(argv, top, k) && StringAt(m, pointers[k], argv[k])
  }

  ghost predicate StringsPlaced(m: Bytes, top: nat, argv: seq<CString>, pointers: seq<U64>, i: nat)
    requires |pointers| == |argv| + 1 && i <= |argv|
  {
    forall k :: i <= k < |argv| ==> Placed(m, top, argv, pointers, k)
  }

  /** Memory that changes only below a placed string leaves it placed. */
  lemma PlacedKept(m: Bytes, m': Bytes, top: nat, argv: seq<CString>, p: seq<U64>, p': seq<U64>, k: nat, from: nat)
    requires |p| == |p'| == |argv| + 1 && k < |argv| && Placed(m, top, argv, p, k) && p'[k] == p[k]
    requires from <= StringAddress(argv, top, k) && forall x: nat :: from <= x ==> Get(m', x) == Get(m, x)
    ensures Placed(m', top, argv, p', k)
  {
    hide Get;
    StringKept(m, m', p[k], argv[k]);
  }

  method PushStrings(m0: Bytes, top: nat, argv: seq<CString>, pointers: array<U64>) returns (m: Bytes, base: nat)
    requires StringBytes(argv, 0) <= top < TWO_64 && pointers.Length == |argv| + 1
    modifies pointers
    ensures base == top - StringBytes(argv, 0)
    ensures StringsPlaced(m, top, argv, pointers[..], 0) && pointers[|argv|] == 0
    ensures forall x: nat :: x < base || top <= x ==> Get(m, x) == Get(m0, x)
  {
    m := m0;
    var a := top;
    var i := |argv|;
    while i > 0
      invariant 0 <= i <= |argv| && a == top - StringBytes(argv, i)
      invariant StringsPlaced(m, top, argv, pointers[..], i)
      invariant forall x: nat :: x < a || top <= x ==> Get(m, x) == Get(m0, x)
    {
      i := i - 1;
      StringBytesMonotone(argv, 0, i);
      ghost var was, above := m, pointers[..];
      m, a := PushString(m, a, argv[i]);
      pointers[i] := a;
      forall k | i < k < |argv| ensures Placed(m, top, argv, pointers[..], k) {
        StringBytesMonotone(argv, i + 1, k);
        assert Placed(was, top, argv, above, k);
        PlacedKept(was, m, top, argv, above, pointers[..], k, top - StringBytes(argv, i + 1));
      }
    }
    ghost var done := pointers[..];
    pointers[|argv|] := 0;
    base := a;
    assert forall k :: 0 <= k < |argv| ==> Placed(m, top, argv, done, k) && pointers[..][k] == done[k];
  }

  /** Word k of the pointer table ending at base. */
  ghost predicate TableSlot(m: Bytes, base: nat, pointers: seq<U64>, k: nat)
    requires k < |pointers| && 8 * |pointers| <= base
  {
    Load64(m, base - 8 * (|pointers| - k)) == pointers[k]
  }

  /** The second loop: the pointer table, from its null backwards. */
  method PushPointers(m0: Bytes, base: nat, pointers: seq<U64>) returns (m: Bytes, a: nat)
    requires 8 * |pointers| <= base
    ensures a == base - 8 * |pointers|
    ensures forall k :: 0 <= k < |pointers| ==> TableSlot(m, base, pointers, k)
    ensures forall x: nat :: x < a || base <= x ==> Get(m, x) == Get(m0, x)
  {
    hide Get; hide Load64; hide Store64;
    m := m0;
    a := base;
    var i := |pointers|;
    while i > 0
      invariant 0 <= i <= |pointers| && a == base - 8 * (|pointers| - i)
      invariant forall k :: i <= k < |pointers| ==> TableSlot(m, base, pointers, k)
      invariant forall x: nat :: x < a || base <= x ==> Get(m, x) == Get(m0, x)
    {
      i := i - 1;
      a := a - 8;
      ghost var was := m;
      m := Store64(m, a, pointers[i]);
      Store64Spec(was, a, pointers[i]);
      forall k | i <= k < |pointers| ensures TableSlot(m, base, pointers, k) {
        if k > i {
          assert TableSlot(was, base, pointers, k);
          Load64Same(was, m, base - 8 * (|pointers| - k));
        }
      }
    }
  }

  // ---------------------------------------------------------------------------------
  // The whole image
  // ---------------------------------------------------------------------------------

  /** The process entry stack of the ABI at rsp: count, pointers, null, and the strings they
      point at, packed right above in order up to top. */
  ghost predicate EntryStack(m: Bytes, rsp: nat, top: nat, argv: seq<CString>) {
    && Load64(m, rsp) == |argv|
    && Load64(m, rsp + 8 + 8 * |argv|) == 0
    && forall k :: 0 <= k < |argv| ==> ArgAt(m, rsp, top, argv, k)
  }

  /** Pointer k leads to string k. */
  ghost predicate ArgAt(m: Bytes, rsp: nat, top: nat, argv: seq<CString>, k: nat)
    requires k < |argv|
  {
    Load64(m, rsp + 8 + 8 * k) == StringAddress(argv, top, k) && StringAt(m, StringAddress(argv, top, k), argv[k])
  }

  /** What the three loops leave behind, memory by memory. */
  ghost predicate Built(strings: Bytes, tabled: Bytes, m: Bytes, top: nat, base: nat, argv: seq<CString>, pointers: seq<U64>) {
    && StackBytes(argv) <= top && |pointers| == |argv| + 1
    && StringsPlaced(strings, top, argv, pointers, 0) && pointers[|argv|] == 0
    && base == top - StringBytes(argv, 0)
    && (forall k :: 0 <= k < |pointers| ==> TableSlot(tabled, base, pointers, k))
    && (forall x: nat :: base <= x ==> Get(tabled, x) == Get(strings, x))
    && Load64(m, top - StackBytes(argv)) == |argv|
    && (forall x: nat :: top - StackBytes(argv) + 8 <= x ==> Get(m, x) == Get(tabled, x))
  }

  lemma BuiltPointer(strings: Bytes, tabled: Bytes, m: Bytes, top: nat, base: nat, argv: seq<CString>, pointers: seq<U64>, k: nat)
    requires Built(strings, tabled, m, top, base, argv, pointers) && k <= |argv|
    ensures Load64(m, top - StackBytes(argv) + 8 + 8 * k) == pointers[k]
  {
    hide Get; hide Load64; hide StringsPlaced;
    assert TableSlot(tabled, base, pointers, k);
    Load64Same(tabled, m, top - StackBytes(argv) + 8 + 8 * k);
  }

  lemma BuiltString(strings: Bytes, tabled: Bytes, m: Bytes, top: nat, base: nat, argv: seq<CString>, pointers: seq<U64>, k: nat)
    requires Built(strings, tabled, m, top, base, argv, pointers) && k < |argv|
    ensures Placed(m, top, argv, pointers, k)
  {
    hide Get; hide Load64; hide TableSlot; hide StringAt;
    StringBytesMonotone(argv, 0, k);
    PlacedKept(strings, m, top, argv, pointers, pointers, k, base);
  }

  /** The three loops together leave the entry stack. */
  lemma EntryStackBuilt(strings: Bytes, tabled: Bytes, m: Bytes, top: nat, base: nat, argv: seq<CString>, pointers: seq<U64>)
    requires Built(strings, tabled, m, top, base, argv, pointers)
    ensures EntryStack(m, top - StackBytes(argv), top, argv)
  {
    assert StackBytes(argv) <= top && |pointers| == |argv| + 1 && pointers[|argv|] == 0;
    assert Load64(m, top - StackBytes(argv)) == |argv|;
    hide Get; hide Load64; hide Built; hide StringAt;
    BuiltPointer(strings, tabled, m, top, base, argv, pointers, |argv|);
    var rsp: nat := top - StackBytes(argv);
    forall k | 0 <= k < |argv| ensures ArgAt(m, rsp, top, argv, k) {
      BuiltPointer(strings, tabled, m, top, base, argv, pointers, k);
      BuiltString(strings, tabled, m, top, base, argv, pointers, k);
    }
  }

  method SetupTaskStack(m0: Bytes, top: U64, argv: seq<CString>) returns (m: Bytes, rsp: U64)
    requires StackBytes(argv) <= top
    ensures rsp == top - StackBytes(argv)
    ensures EntryStack(m, rsp, top, argv)
    ensures forall x: nat :: x < rsp || top <= x ==> Get(m, x) == Get(m0, x)
  {
    hide Get; hide Load64; hide Store64;
    var pointers := new U64[|argv| + 1](i => 0);
    var base, a;
    m, base := PushStrings(m0, top, argv, pointers);
    ghost var strings := m;
    m, a := PushPointers(m, base, pointers[..]);
    ghost var tabled := m;
    rsp := a - 8;
    m := Store64(m, rsp, |argv|);
    Store64Spec(tabled, rsp, |argv|);
    EntryStackBuilt(strings, tabled, m, top, base, argv, pointers[..]);
  }

  // ---------------------------------------------------------------------------------
  // Reading it back
  // ---------------------------------------------------------------------------------

  /** What a program reads: bytes up to the first NUL, and no more than `limit` of them. */
  function ReadString(m: Bytes, a: nat, limit: nat): seq<Byte>
    decreases limit
  {
    if limit == 0 || Get(m, a) == 0 then [] else [Get(m, a)] + ReadString(m, a + 1, limit - 1)
  }

  function ReadArgs(m: Bytes, rsp: nat, limit: nat): seq<seq<Byte>> {
    seq(Load64(m, rsp), i requires 0 <= i => ReadString(m, Load64(m, rsp + 8 + 8 * i), limit))
  }

  lemma {:induction false} ReadPlacedString(m: Bytes, a: nat, s: CString, limit: nat)
    requires StringAt(m, a, s) && |s| <= limit
    ensures ReadString(m, a, limit) == s
    decreases |s|
  {
    if s != [] {
      assert Get(m, a + 0) == s[0] && s[0] in s;
      var rest: CString := s[1..];
      forall j | 0 <= j < |rest| ensures Get(m, a + 1 + j) == rest[j] {
        assert Get(m, a + (j + 1)) == s[j + 1];
      }
      ReadPlacedString(m, a + 1, rest, limit - 1);
    } else {
      assert Get(m, a + |s|) == 0;
    }
  }

  /** Round trip: a program reading the stack it is started on gets exactly its arguments. */
  lemma ArgsRoundTrip(m: Bytes, rsp: nat, top: nat, argv: seq<CString>, limit: nat)
    requires EntryStack(m, rsp, top, argv) && forall k :: 0 <= k < |argv| ==> |argv[k]| <= limit
    ensures ReadArgs(m, rsp, limit) == argv
  {
    hide Get; hide Load64;
    var read := ReadArgs(m, rsp, limit);
    forall k | 0 <= k < |argv| ensures read[k] == argv[k] {
      assert ArgAt(m, rsp, top, argv, k);
      ReadPlacedString(m, StringAddress(argv, top, k), argv[k], limit);
    }
  }

  /** How many pointers there are before the first null, and no more than `limit`. */
  function CountPointers(m: Bytes, a: nat, limit: nat): nat
    decreases limit
  {
    if limit == 0 || Load64(m, a) == 0 then 0 else 1 + CountPointers(m, a + 8, limit - 1)
  }

  lemma {:induction false} PointersBeforeNull(m: Bytes, a: nat, n: nat, limit: nat)
    requires (forall k :: 0 <= k < n ==> Load64(m, a + 8 * k) != 0) && Load64(m, a + 8 * n) == 0 && n < limit
    ensures CountPointers(m, a, limit) == n
    decreases n
  {
    hide Load64;
    if n > 0 {
      assert Load64(m, a + 8 * 0) != 0;
      forall k | 0 <= k < n - 1 ensures Load64(m, a + 8 + 8 * k) != 0 {
        assert a + 8 + 8 * k == a + 8 * (k + 1);
      }
      assert a + 8 + 8 * (n - 1) == a + 8 * n;
      PointersBeforeNull(m, a + 8, n - 1, limit - 1);
    }
  }

  /** A program that looks for the null instead of the count finds as many arguments. */
  lemma NullAgreesWithCount(m: Bytes, rsp: nat, top: nat, argv: seq<CString>, limit: nat)
    requires EntryStack(m, rsp, top, argv) && rsp + StackBytes(argv) == top && |argv| < limit
    ensures CountPointers(m, rsp + 8, limit) == Load64(m, rsp)
  {
    hide Load64; hide StringAt;
    forall k | 0 <= k < |argv| ensures Load64(m, rsp + 8 + 8 * k) != 0 {
      assert ArgAt(m, rsp, top, argv, k);
      StringBytesMonotone(argv, 0, k);
    }
    PointersBeforeNull(m, rsp + 8, |argv|, limit);
  }

  /** The regions are disjoint and fill the used bytes: the table ends where the strings begin,
      each string ends where the next begins, and the last ends at top. */
  lemma RegionsAbut(argv: seq<CString>, top: nat, i: nat)
    requires StackBytes(argv) <= top && i < |argv|
    ensures StringAddress(argv, top, 0) == top - StackBytes(argv) + 8 + 8 * (|argv| + 1)
    ensures StringAddress(argv, top, i) + |argv[i]| + 1 == if i + 1 < |argv| then StringAddress(argv, top, i + 1) else top
  {
    assert StringBytes(argv, i) == |argv[i]| + 1 + StringBytes(argv, i + 1);
    assert StringBytes(argv, |argv|) == 0;
  }
}
