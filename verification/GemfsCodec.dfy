/**
  GemFS on-disk records (src/include/filesys/gemfs.h): the packed directory entry and the
  partition's main record, as bytes of a sector.
 */
module GemfsCodec {
  import opened Registers
  import opened ByteMemory

  const SECTOR: nat := 512

  function ZeroBytes(n: nat): (r: seq<Byte>)
    ensures |r| == n && forall i :: 0 <= i < n ==> r[i] == 0
  {
    seq(n, i => 0)
  }

  type Sector = s: seq<Byte> | |s| == SECTOR witness ZeroBytes(SECTOR)

  const NAME_BYTES: nat := 128

  type Name = s: seq<Byte> | |s| == NAME_BYTES witness ZeroBytes(NAME_BYTES)

  /** The name as memcpy leaves it in a cleared entry. */
  function Padded(name: seq<Byte>): Name
    requires |name| <= NAME_BYTES
  {
    name + ZeroBytes(NAME_BYTES - |name|)
  }

  /** struct GemFS_Entry */
  datatype Entry = Entry(start: U64, size: U64, index: U64, parent: U64, sibling: U64, next: U64,
                         flags: Byte, readingMask: Byte, name: Name)

  /** struct GemFS_Main */
  datatype Main = Main(check: seq<Byte>, blockSize: nat, entry: Entry)

  predicate MainOk(m: Main) {
    |m.check| == 4 && m.blockSize < 0x1_0000
  }

  // ---------------------------------------------------------------------------------
  // Little-endian numbers
  // ---------------------------------------------------------------------------------

  function ToBytes(v: nat, k: nat): (s: seq<Byte>)
    ensures |s| == k
    decreases k
  {
    if k == 0 then [] else [v % 256] + ToBytes(v / 256, k - 1)
  }

  function FromBytes(s: seq<Byte>): nat {
    if s == [] then 0 else s[0] + 256 * FromBytes(s[1..])
  }

  lemma {:induction false} FromToBytes(v: nat, k: nat)
    requires v < Pow256(k)
    ensures FromBytes(ToBytes(v, k)) == v
    decreases k
  {
    if k > 0 {
      FromToBytes(v / 256, k - 1);
      assert ToBytes(v, k)[1..] == ToBytes(v / 256, k - 1);
    }
  }

  lemma {:induction false} FromBytesBound(s: seq<Byte>)
    ensures FromBytes(s) < Pow256(|s|)
  {
    if s != [] {
      FromBytesBound(s[1..]);
    }
  }

  // ---------------------------------------------------------------------------------
  // Records
  // ---------------------------------------------------------------------------------

  /** The 64-bit field at byte offset `at`. */
  function Field(s: seq<Byte>, at: nat): U64
    requires at + 8 <= |s|
  {
    FromBytesBound(s[at..at + 8]);
    Pow256Of8();
    FromBytes(s[at..at + 8])
  }

  function EntryNumbers(e: Entry): (s: seq<Byte>)
    ensures |s| == 48
  {
    ToBytes(e.start, 8) + ToBytes(e.size, 8) + ToBytes(e.index, 8) + ToBytes(e.parent, 8) + ToBytes(e.sibling, 8)
    + ToBytes(e.next, 8)
  }

  const ENTRY_BYTES: nat := 178

  /** The 178 packed bytes of an entry. */
  function EntryBytes(e: Entry): (s: seq<Byte>)
    ensures |s| == ENTRY_BYTES
  {
    EntryNumbers(e) + [e.flags, e.readingMask] + e.name
  }

  function ParseEntry(s: seq<Byte>): Entry
    requires |s| == ENTRY_BYTES
  {
    Entry(Field(s, 0), Field(s, 8), Field(s, 16), Field(s, 24), Field(s, 32), Field(s, 40), s[48], s[49], s[50..])
  }

  function EncodeEntry(e: Entry): Sector {
    EntryBytes(e) + ZeroBytes(SECTOR - ENTRY_BYTES)
  }

  function DecodeEntry(s: Sector): Entry {
    ParseEntry(s[..ENTRY_BYTES])
  }

  function EncodeMain(m: Main): Sector
    requires MainOk(m)
  {
    m.check + ToBytes(m.blockSize, 2) + EntryBytes(m.entry) + ZeroBytes(SECTOR - ENTRY_BYTES - 6)
  }

  function DecodeMain(s: Sector): Main {
    Main(s[..4], FromBytes(s[4..6]), ParseEntry(s[6..6 + ENTRY_BYTES]))
  }

  lemma FieldOf(s: seq<Byte>, at: nat, v: U64)
    requires at + 8 <= |s| && s[at..at + 8] == ToBytes(v, 8)
    ensures Field(s, at) == v
  {
    Pow256Of8();
    FromToBytes(v, 8);
  }

  lemma ParseOfEntryBytes(e: Entry)
    ensures ParseEntry(EntryBytes(e)) == e
  {
    var s := EntryBytes(e);
    assert s[..48] == EntryNumbers(e);
    NumbersLayout(e);
    assert s[0..8] == EntryNumbers(e)[0..8] && s[8..16] == EntryNumbers(e)[8..16] && s[16..24] == EntryNumbers(e)[16..24];
    assert s[24..32] == EntryNumbers(e)[24..32] && s[32..40] == EntryNumbers(e)[32..40] && s[40..48] == EntryNumbers(e)[40..48];
    hide EntryNumbers; hide ToBytes; hide Field;
    FieldOf(s, 0, e.start);
    FieldOf(s, 8, e.size);
    FieldOf(s, 16, e.index);
    FieldOf(s, 24, e.parent);
    FieldOf(s, 32, e.sibling);
    FieldOf(s, 40, e.next);
    assert s[50..] == e.name;
  }

  lemma NumbersLayout(e: Entry)
    ensures var s := EntryNumbers(e);
            && s[0..8] == ToBytes(e.start, 8) && s[8..16] == ToBytes(e.size, 8) && s[16..24] == ToBytes(e.index, 8)
            && s[24..32] == ToBytes(e.parent, 8) && s[32..40] == ToBytes(e.sibling, 8) && s[40..48] == ToBytes(e.next, 8)
  {
    hide ToBytes;
  }

  /** An entry written to a sector is read back as it was. */
  lemma EntryRoundTrip(e: Entry)
    ensures DecodeEntry(EncodeEntry(e)) == e
  {
    ParseOfEntryBytes(e);
    hide EntryBytes; hide ParseEntry;
    assert EncodeEntry(e)[..ENTRY_BYTES] == EntryBytes(e);
  }

  lemma MainLayout(m: Main)
    requires MainOk(m)
    ensures var s := EncodeMain(m);
            s[..4] == m.check && s[4..6] == ToBytes(m.blockSize, 2) && s[6..6 + ENTRY_BYTES] == EntryBytes(m.entry)
  {
    hide EntryBytes; hide ToBytes;
    var a, b, c := m.check, ToBytes(m.blockSize, 2), EntryBytes(m.entry);
    Slices(a, b, c, ZeroBytes(SECTOR - ENTRY_BYTES - 6));
  }

  lemma Slices(a: seq<Byte>, b: seq<Byte>, c: seq<Byte>, d: seq<Byte>)
    requires |a| == 4 && |b| == 2 && |c| == ENTRY_BYTES
    ensures var s := a + b + c + d; s[..4] == a && s[4..6] == b && s[6..6 + ENTRY_BYTES] == c
  {
  }

  lemma TwoBytes(v: nat)
    requires v < 0x1_0000
    ensures FromBytes(ToBytes(v, 2)) == v
  {
    assert Pow256(2) == 0x1_0000;
    FromToBytes(v, 2);
  }

  /** ... and so is the main record. */
  lemma MainRoundTrip(m: Main)
    requires MainOk(m)
    ensures DecodeMain(EncodeMain(m)) == m
  {
    hide EntryBytes; hide ParseEntry; hide ToBytes; hide FromBytes; hide EncodeMain;
    ParseOfEntryBytes(m.entry);
    TwoBytes(m.blockSize);
    MainLayout(m);
  }

  // ---------------------------------------------------------------------------------
  // The bytes on disk
  // ---------------------------------------------------------------------------------

  lemma {:induction false} ToBytesAt(v: nat, k: nat, j: nat)
    requires j < k
    ensures ToBytes(v, k)[j] == ByteOf(v, j)
    decreases k
  {
    if j > 0 {
      ToBytesAt(v / 256, k - 1, j - 1);
      ByteOfRest(v, j);
    } else {
      assert Pow256(0) == 1;
    }
  }

  /** The eight bytes from `at` on are the number, least significant byte first. */
  predicate NumberAt(s: seq<Byte>, at: nat, v: U64) {
    at + 8 <= |s| && forall j :: 0 <= j < 8 ==> s[at + j] == ByteOf(v, j)
  }

  lemma NumberFrom(s: seq<Byte>, at: nat, v: U64)
    requires at + 8 <= |s| && s[at..at + 8] == ToBytes(v, 8)
    ensures NumberAt(s, at, v)
  {
    hide ByteOf;
    forall j | 0 <= j < 8 ensures s[at + j] == ByteOf(v, j) {
      ToBytesAt(v, 8, j);
      assert s[at + j] == s[at..at + 8][j];
    }
  }

  /** The packed structure: six numbers, two bytes, the name; the rest of the sector is clear. */
  lemma EntryLayout(e: Entry)
    ensures var s := EncodeEntry(e);
            && NumberAt(s, 0, e.start) && NumberAt(s, 8, e.size) && NumberAt(s, 16, e.index) && NumberAt(s, 24, e.parent)
            && NumberAt(s, 32, e.sibling) && NumberAt(s, 40, e.next)
            && s[48] == e.flags && s[49] == e.readingMask
            && (forall j :: 0 <= j < 128 ==> s[50 + j] == e.name[j]) && forall j :: 178 <= j < 512 ==> s[j] == 0
  {
    var s, head := EncodeEntry(e), EntryNumbers(e);
    assert s[..48] == head;
    assert s[50..178] == e.name;
    assert forall j :: 0 <= j < 128 ==> s[50 + j] == s[50..178][j];
    NumbersLayout(e);
    hide EntryNumbers; hide ToBytes; hide EncodeEntry; hide NumberAt;
    assert s[0..8] == head[0..8] && s[8..16] == head[8..16] && s[16..24] == head[16..24];
    assert s[24..32] == head[24..32] && s[32..40] == head[32..40] && s[40..48] == head[40..48];
    NumberFrom(s, 0, e.start);
    NumberFrom(s, 8, e.size);
    NumberFrom(s, 16, e.index);
    NumberFrom(s, 24, e.parent);
    NumberFrom(s, 32, e.sibling);
    NumberFrom(s, 40, e.next);
  }

  /** In the main record the mark, the block size and then the root's entry as above. */
  lemma MainBytes(m: Main)
    requires MainOk(m)
    ensures var s := EncodeMain(m);
            && s[..4] == m.check && s[4] == m.blockSize % 256 && s[5] == m.blockSize / 256
            && s[6..184] == EncodeEntry(m.entry)[..178] && forall j :: 184 <= j < 512 ==> s[j] == 0
  {
    MainLayout(m);
    MainTail(m);
    SizeBytes(m.blockSize);
    EntryFirst(m.entry);
    hide EncodeMain; hide EncodeEntry; hide EntryBytes; hide ToBytes;
    var s := EncodeMain(m);
    assert s[4] == s[4..6][0] && s[5] == s[4..6][1];
  }

  lemma MainTail(m: Main)
    requires MainOk(m)
    ensures forall j :: 184 <= j < 512 ==> EncodeMain(m)[j] == 0
  {
    hide EntryBytes; hide ToBytes;
    assert |m.check + ToBytes(m.blockSize, 2) + EntryBytes(m.entry)| == 184;
  }

  lemma EntryFirst(e: Entry)
    ensures EncodeEntry(e)[..178] == EntryBytes(e)
  {
    hide EntryBytes;
  }

  lemma SizeBytes(v: nat)
    requires v < 0x1_0000
    ensures ToBytes(v, 2) == [v % 256, v / 256]
  {
    assert ToBytes(v / 256, 1) == [v / 256 % 256] + ToBytes(v / 256 / 256, 0);
  }
}
