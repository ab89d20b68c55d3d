/**
  A process's memory as the kernel writes it: bytes, and little-endian 64-bit words.
 */
module ByteMemory {
  import opened Registers
  import opened Division

  type Byte = b: nat | b < 256

  /** A C string without its terminator. */
  type CString = s: seq<Byte> | 0 !in s

  /** Bytes never written read as zero. */
  type Bytes = map<nat, Byte>

  function Get(m: Bytes, a: nat): Byte {
    if a in m then m[a] else 0
  }

  /** Stores the k low bytes of v, least significant first. */
  function StoreLE(m: Bytes, a: nat, v: nat, k: nat): Bytes
    decreases k
  {
    if k == 0 then m else StoreLE(m[a := v % 256], a + 1, v / 256, k - 1)
  }

  function LoadLE(m: Bytes, a: nat, k: nat): nat
    decreases k
  {
    if k == 0 then 0 else Get(m, a) + 256 * LoadLE(m, a + 1, k - 1)
  }

  function Pow256(k: nat): nat {
    if k == 0 then 1 else 256 * Pow256(k - 1)
  }

  /** The bytes from a to a + k - 1 are the same in both memories. */
  ghost predicate SameBytes(m: Bytes, m': Bytes, a: nat, k: nat) {
    forall x :: a <= x < a + k ==> Get(m', x) == Get(m, x)
  }

  lemma {:induction false} StoreElsewhere(m: Bytes, a: nat, v: nat, k: nat, x: nat)
    requires x < a || a + k <= x
    ensures Get(StoreLE(m, a, v, k), x) == Get(m, x)
    decreases k
  {
    if k > 0 {
      StoreElsewhere(m[a := v % 256], a + 1, v / 256, k - 1, x);
    }
  }

  lemma {:induction false} LoadSame(m: Bytes, m': Bytes, a: nat, k: nat)
    requires SameBytes(m, m', a, k)
    ensures LoadLE(m', a, k) == LoadLE(m, a, k)
    decreases k
  {
    if k > 0 {
      LoadSame(m, m', a + 1, k - 1);
    }
  }

  /** What is stored is what is loaded. */
  lemma {:induction false} LoadOfStore(m: Bytes, a: nat, v: nat, k: nat)
    requires v < Pow256(k)
    ensures LoadLE(StoreLE(m, a, v, k), a, k) == v
    decreases k
  {
    if k > 0 {
      LoadOfStore(m[a := v % 256], a + 1, v / 256, k - 1);
      StoreElsewhere(m[a := v % 256], a + 1, v / 256, k - 1, a);
    }
  }

  lemma {:induction false} LoadBound(m: Bytes, a: nat, k: nat)
    ensures LoadLE(m, a, k) < Pow256(k)
    decreases k
  {
    if k > 0 {
      LoadBound(m, a + 1, k - 1);
    }
  }

  lemma Pow256Of8()
    ensures Pow256(8) == TWO_64
  {
    assert Pow256(2) == 0x1_0000 && Pow256(4) == 0x1_0000_0000 && Pow256(6) == 0x1_0000_0000_0000;
  }

  function Store64(m: Bytes, a: nat, v: U64): Bytes {
    StoreLE(m, a, v, 8)
  }

  function Load64(m: Bytes, a: nat): U64 {
    Pow256Of8();
    LoadBound(m, a, 8);
    LoadLE(m, a, 8)
  }

  /** A word store writes its word and no byte outside it. */
  lemma Store64Spec(m: Bytes, a: nat, v: U64)
    ensures Load64(Store64(m, a, v), a) == v
    ensures forall x: nat :: x < a || a + 8 <= x ==> Get(Store64(m, a, v), x) == Get(m, x)
  {
    Pow256Of8();
    LoadOfStore(m, a, v, 8);
    forall x: nat | x < a || a + 8 <= x ensures Get(Store64(m, a, v), x) == Get(m, x) {
      StoreElsewhere(m, a, v, 8, x);
    }
  }

  lemma Load64Same(m: Bytes, m': Bytes, a: nat)
    requires SameBytes(m, m', a, 8)
    ensures Load64(m', a) == Load64(m, a)
  {
    LoadSame(m, m', a, 8);
  }

  /** Byte j of a number, the least significant first. */
  function ByteOf(v: nat, j: nat): Byte {
    Pow256Positive(j);
    v / Pow256(j) % 256
  }

  lemma {:induction false} Pow256Positive(j: nat)
    ensures Pow256(j) > 0
  {
    if j > 0 {
      Pow256Positive(j - 1);
    }
  }

  lemma ByteOfRest(v: nat, j: nat)
    requires j > 0
    ensures ByteOf(v, j) == ByteOf(v / 256, j - 1)
  {
    Pow256Positive(j);
    Pow256Positive(j - 1);
    DivDiv(v, 256, Pow256(j - 1));
  }

  /** Words are stored with the least significant byte first. */
  lemma {:induction false} StoredBytes(m: Bytes, a: nat, v: nat, k: nat, j: nat)
    requires j < k
    ensures Get(StoreLE(m, a, v, k), a + j) == ByteOf(v, j)
    decreases k
  {
    var m1 := m[a := v % 256];
    if j == 0 {
      StoreElsewhere(m1, a + 1, v / 256, k - 1, a);
    } else {
      StoredBytes(m1, a + 1, v / 256, k - 1, j - 1);
      ByteOfRest(v, j);
    }
  }
}
