/**
  Block addresses and disk geometry: the driver's conversion
  (src/kernel/drivers/Devices/Disk/Floppy.c), the boot loader's conversion, and the boot
  loader's stepping from sector to sector with carries (src/boot/boot1.s).
 */
module DiskGeometry {
  import opened Division

  datatype Geometry = Geometry(sectors: nat, heads: nat)

  /** The sector count has six bits.  The boot loader compares heads as signed bytes, one past
      the last included. */
  predicate ValidGeometry(g: Geometry) {
    1 <= g.sectors <= 63 && 1 <= g.heads <= 127
  }

  datatype Chs = Chs(cylinder: nat, head: nat, sector: nat)

  predicate InRange(g: Geometry, c: Chs) {
    c.head < g.heads && 1 <= c.sector <= g.sectors
  }

  /** The block that a triple addresses. */
  function ToLba(g: Geometry, c: Chs): int {
    (c.cylinder * g.heads + c.head) * g.sectors + (c.sector - 1)
  }

  /** FLOPPY_LBA_To_CHS; the fields are 16 bits wide. */
  function DriverChs(g: Geometry, lba: nat): Chs
    requires ValidGeometry(g)
  {
    ProductPositive(g.heads, g.sectors);
    Chs((lba / (g.heads * g.sectors)) % 0x1_0000, (lba / g.sectors) % g.heads, lba % g.sectors + 1)
  }

  /** calculate_LBA_to_CHS: two divisions, the quotient of the first divided again; the
      results are stored as bytes.  The loader starts from blocks that fit in AX. */
  function BootChs(g: Geometry, lba: nat): Chs
    requires ValidGeometry(g)
  {
    Remainders(lba, g.sectors, g.heads);
    Stored(lba / g.sectors / g.heads, lba / g.sectors % g.heads, lba % g.sectors)
  }

  /** Cylinder, head and sector offset in their byte-wide variables; sectors count from 1. */
  function Stored(cylinder: nat, head: nat, offset: nat): Chs {
    Chs(cylinder % 0x100, head % 0x100, (offset + 1) % 0x100)
  }

  /** The carry step of load_kernel_floppy before each read: the sector counter may have run
      one past the track, and the head one past the last.  The comparison is a signed one on bytes,
      which is what bounds the geometry. */
  function Normalise(g: Geometry, c: Chs): Chs {
    if c.sector > g.sectors then
      var head := c.head + 1;
      if head > g.heads - 1 then Chs((c.cylinder + 1) % 0x100, 0, c.sector - g.sectors)
      else Chs(c.cylinder, head, c.sector - g.sectors)
    else c
  }

  /** After a successful read the sector counter is incremented. */
  function Advance(c: Chs): Chs {
    c.(sector := c.sector + 1)
  }

  /** The triple read from on the k-th pass of the loop. */
  function Stepped(g: Geometry, start: nat, k: nat): Chs
    requires ValidGeometry(g)
  {
    if k == 0 then Normalise(g, BootChs(g, start)) else Normalise(g, Advance(Stepped(g, start, k - 1)))
  }

  // ---------------------------------------------------------------------------------
  // Conversions
  // ---------------------------------------------------------------------------------

  /** The first block whose cylinder number does not fit in a byte. */
  function Capacity(g: Geometry): nat {
    0x100 * (g.heads * g.sectors)
  }

  lemma CylinderFits(g: Geometry, lba: nat)
    requires ValidGeometry(g)
    ensures lba < Capacity(g) <==> (lba / g.sectors) / g.heads < 0x100
  {
    DivDiv(lba, g.sectors, g.heads);
    DivBound(lba, g.heads * g.sectors, 0x100);
  }

  lemma Recompose(lba: nat, s: nat, h: nat)
    requires s > 0 && h > 0
    ensures lba == ((lba / s) / h * h + (lba / s) % h) * s + lba % s
  {
    Euclid(lba, s);
    Euclid(lba / s, h);
  }

  lemma SmallerCylinder(a: nat, b: nat, x: nat, h: nat, s: nat)
    requires a < b && h > 0 && s > 0
    ensures (a * h + x) * s < (b * h + x) * s
  {
    MulStep(a, b, h);
    MulStep(a * h + x, b * h + x, s);
  }

  lemma Remainders(lba: nat, s: nat, h: nat)
    requires s > 0 && h > 0
    ensures 0 <= lba / s / h && 0 <= lba / s % h < h && 0 <= lba % s < s
  {
  }

  /** The three numbers that the boot loader's divisions find. */
  lemma BootSplit(g: Geometry, lba: nat) returns (c: nat, x: nat, r: nat)
    requires ValidGeometry(g)
    ensures BootChs(g, lba) == Stored(c, x, r) && x < g.heads && r < g.sectors
    ensures lba == (c * g.heads + x) * g.sectors + r
    ensures lba < Capacity(g) <==> c < 0x100
  {
    hide Capacity; hide Stored;
    CylinderFits(g, lba);
    Recompose(lba, g.sectors, g.heads);
    Remainders(lba, g.sectors, g.heads);
    c, x, r := lba / g.sectors / g.heads, lba / g.sectors % g.heads, lba % g.sectors;
  }

  /** Converting and converting back gives the block exactly when it lies below the capacity;
      head and sector are in range always. */
  lemma BootRoundTripIff(g: Geometry, lba: nat)
    requires ValidGeometry(g)
    ensures InRange(g, BootChs(g, lba))
    ensures ToLba(g, BootChs(g, lba)) == lba <==> lba < Capacity(g)
  {
    hide *;
    var c, x, r := BootSplit(g, lba);
    StoredRoundTrip(g, c, x, r);
  }

  lemma StoredRoundTrip(g: Geometry, c: nat, x: nat, r: nat)
    requires ValidGeometry(g) && x < g.heads && r < g.sectors
    ensures InRange(g, Stored(c, x, r))
    ensures ToLba(g, Stored(c, x, r)) == (c * g.heads + x) * g.sectors + r <==> c < 0x100
  {
    StoredFields(g, c, x, r);
    hide Stored;
    if c >= 0x100 {
      SmallerCylinder(c % 0x100, c, x, g.heads, g.sectors);
    } else {
      assert c % 0x100 == c;
    }
  }

  lemma StoredFields(g: Geometry, c: nat, x: nat, r: nat)
    requires ValidGeometry(g) && x < g.heads && r < g.sectors
    ensures Stored(c, x, r) == Chs(c % 0x100, x, r + 1)
  {
  }

  /** The driver's fields are wider, and its conversion right below 65536 cylinders. */
  lemma DriverRoundTripIff(g: Geometry, lba: nat)
    requires ValidGeometry(g)
    ensures InRange(g, DriverChs(g, lba))
    ensures ToLba(g, DriverChs(g, lba)) == lba <==> lba < 0x1_0000 * (g.heads * g.sectors)
  {
    hide *;
    var c, x, r := DriverSplit(g, lba);
    WideRoundTrip(g, c, x, r);
  }

  /** The three numbers that the driver's divisions find. */
  lemma DriverSplit(g: Geometry, lba: nat) returns (c: nat, x: nat, r: nat)
    requires ValidGeometry(g)
    ensures DriverChs(g, lba) == Chs(c % 0x1_0000, x, r + 1) && x < g.heads && r < g.sectors
    ensures lba == (c * g.heads + x) * g.sectors + r
    ensures lba < 0x1_0000 * (g.heads * g.sectors) <==> c < 0x1_0000
  {
    Recompose(lba, g.sectors, g.heads);
    Remainders(lba, g.sectors, g.heads);
    c, x, r := lba / g.sectors / g.heads, lba / g.sectors % g.heads, lba % g.sectors;
    DivDiv(lba, g.sectors, g.heads);
    DivBound(lba, g.heads * g.sectors, 0x1_0000);
  }

  lemma WideRoundTrip(g: Geometry, c: nat, x: nat, r: nat)
    requires ValidGeometry(g) && x < g.heads && r < g.sectors
    ensures InRange(g, Chs(c % 0x1_0000, x, r + 1))
    ensures ToLba(g, Chs(c % 0x1_0000, x, r + 1)) == (c * g.heads + x) * g.sectors + r <==> c < 0x1_0000
  {
    if c >= 0x1_0000 {
      SmallerCylinder(c % 0x1_0000, c, x, g.heads, g.sectors);
    }
  }

  /** The driver and the boot loader agree on every block below the capacity. */
  lemma DriverAgrees(g: Geometry, lba: nat)
    requires ValidGeometry(g) && lba < Capacity(g)
    ensures DriverChs(g, lba) == BootChs(g, lba)
  {
    hide *;
    var c, x, r := BootSplit(g, lba);
    var c', x', r' := DriverSplit(g, lba);
    NumberIs(c, x, r, g.heads, g.sectors);
    NumberIs(c', x', r', g.heads, g.sectors);
    NumberUnique(c, x, r, c', x', r', g.heads, g.sectors);
    SmallParts(g, x, r);
    StoredSmall(c, x, r);
  }

  lemma SmallParts(g: Geometry, x: nat, r: nat)
    requires ValidGeometry(g) && x < g.heads && r < g.sectors
    ensures x < 0x100 && r + 1 < 0x100
  {
  }

  lemma StoredSmall(c: nat, x: nat, r: nat)
    requires c < 0x100 && x < 0x100 && r + 1 < 0x100
    ensures Stored(c, x, r) == Chs(c % 0x1_0000, x, r + 1)
  {
  }

  // ---------------------------------------------------------------------------------
  // Stepping
  // ---------------------------------------------------------------------------------

  /** One carry step is the conversion of the next block. */
  lemma AdvanceIsNext(g: Geometry, lba: nat)
    requires ValidGeometry(g)
    ensures Normalise(g, Advance(BootChs(g, lba))) == BootChs(g, lba + 1)
  {
    hide *;
    var c, x, r := BootSplit(g, lba);
    var c', x', r' := BootSplit(g, lba + 1);
    NumberIs(c, x, r, g.heads, g.sectors);
    NumberIs(c', x', r', g.heads, g.sectors);
    NumberNext(c, x, r, g.heads, g.sectors);
    StoredNext(g, c, x, r);
    if r + 1 < g.sectors {
      NumberUnique(c, x, r + 1, c', x', r', g.heads, g.sectors);
    } else if x + 1 < g.heads {
      NumberUnique(c, x + 1, 0, c', x', r', g.heads, g.sectors);
    } else {
      NumberUnique(c + 1, 0, 0, c', x', r', g.heads, g.sectors);
    }
  }

  /** The block of a cylinder, a head and a sector offset. */
  function Number(c: nat, x: nat, r: nat, h: nat, s: nat): nat {
    (c * h + x) * s + r
  }

  lemma NumberIs(c: nat, x: nat, r: nat, h: nat, s: nat)
    ensures Number(c, x, r, h, s) == (c * h + x) * s + r
  {
  }

  lemma NumberNext(c: nat, x: nat, r: nat, h: nat, s: nat)
    requires x < h && r < s
    ensures Number(c, x, r, h, s) + 1 ==
              if r + 1 < s then Number(c, x, r + 1, h, s)
              else if x + 1 < h then Number(c, x + 1, 0, h, s)
              else Number(c + 1, 0, 0, h, s)
  {
    if r + 1 == s && x + 1 < h {
      CarrySector(c * h + x, c * h + (x + 1), r, s);
    } else if r + 1 == s {
      NextMultiple(c, h);
      CarrySector(c * h + x, (c + 1) * h + 0, r, s);
    }
  }

  lemma CarrySector(track: nat, next: nat, r: nat, s: nat)
    requires r + 1 == s && next == track + 1
    ensures track * s + r + 1 == next * s + 0
  {
    NextMultiple(track, s);
  }

  lemma PartsUnique(a: nat, r: nat, a': nat, r': nat, s: nat)
    requires r < s && r' < s && a * s + r == a' * s + r'
    ensures a == a' && r == r'
  {
    DivUnique(a * s + r, s, a, r);
    DivUnique(a * s + r, s, a', r');
  }

  /** A block has one cylinder, head and sector offset. */
  lemma NumberUnique(c: nat, x: nat, r: nat, c': nat, x': nat, r': nat, h: nat, s: nat)
    requires x < h && x' < h && r < s && r' < s && Number(c, x, r, h, s) == Number(c', x', r', h, s)
    ensures c == c' && x == x' && r == r'
  {
    PartsUnique(c * h + x, r, c' * h + x', r', s);
    PartsUnique(c, x, c', x', h);
  }

  lemma StoredNext(g: Geometry, c: nat, x: nat, r: nat)
    requires ValidGeometry(g) && x < g.heads && r < g.sectors
    ensures Normalise(g, Advance(Stored(c, x, r))) ==
              if r + 1 < g.sectors then Stored(c, x, r + 1)
              else if x + 1 < g.heads then Stored(c, x + 1, 0)
              else Stored(c + 1, 0, 0)
  {
  }

  /** Stepping refines division: after k reads the carried triple is the direct conversion of
      block start + k, in the boot loader and, below the capacity, in the driver. */
  lemma {:induction false} SteppingIsDivision(g: Geometry, start: nat, k: nat)
    requires ValidGeometry(g)
    ensures Stepped(g, start, k) == BootChs(g, start + k)
    ensures start + k < Capacity(g) ==> Stepped(g, start, k) == DriverChs(g, start + k)
    decreases k
  {
    hide BootChs; hide DriverChs; hide Capacity; hide Normalise;
    if k > 0 {
      SteppingIsDivision(g, start, k - 1);
      AdvanceIsNext(g, start + k - 1);
    } else {
      FirstIsNormal(g, start);
    }
    if start + k < Capacity(g) {
      DriverAgrees(g, start + k);
    }
  }

  lemma FirstIsNormal(g: Geometry, lba: nat)
    requires ValidGeometry(g)
    ensures Normalise(g, BootChs(g, lba)) == BootChs(g, lba)
  {
    Euclid(lba, g.sectors);
  }

  lemma BelowCapacity(g: Geometry, start: nat, count: nat, k: nat)
    requires start + count <= Capacity(g) && k < count
    ensures start + k < Capacity(g)
  {
  }

  // ---------------------------------------------------------------------------------
  // The loading loop
  // ---------------------------------------------------------------------------------

  type Word16 = n: nat | n < 0x1_0000

  /** One down on the sector counter.  Only its low byte is loaded for that, into a register whose
      high byte a successful read has cleared; all sixteen bits are stored back. */
  function CountDown(count: Word16): Word16 {
    (count % 0x100 - 1) % 0x1_0000
  }

  /** How many sectors the loop reads for a counter that starts at `count`. */
  function SectorsRead(count: Word16): nat {
    if count == 0 then 0 else (count - 1) % 0x100 + 1
  }

  lemma CountDownReads(count: Word16)
    requires count > 0
    ensures SectorsRead(CountDown(count)) == SectorsRead(count) - 1
  {
    var low := count % 0x100;
    assert count == count / 0x100 * 0x100 + low;
    if low == 0 {
      assert CountDown(count) == 0xFFFF;
      assert (count - 1) % 0x100 == 0xFF;
    } else {
      assert CountDown(count) == low - 1;
      assert (count - 1) % 0x100 == low - 1;
    }
  }

  /** The loop reads as many sectors as it is asked for exactly when that is at most 256. */
  lemma ReadsAllIff(count: Word16)
    ensures SectorsRead(count) == count <==> count <= 0x100
  {
    if count > 0x100 {
      assert (count - 1) % 0x100 < 0x100;
    }
  }

  /** The kernel is to be loaded with 384 sectors; the loop stops after 128. */
  lemma KernelCutShort()
    ensures SectorsRead(384) == 128
  {
  }

  /** The loop of load_kernel_floppy: reads consecutive blocks from `start`, as many as its counter
      makes it. */
  method LoadSectors<T>(g: Geometry, start: nat, count: Word16, disk: Chs -> T) returns (image: seq<T>)
    requires ValidGeometry(g) && start + SectorsRead(count) <= Capacity(g)
    ensures |image| == SectorsRead(count)
    ensures forall k :: 0 <= k < |image| ==> image[k] == disk(DriverChs(g, start + k))
  {
    hide BootChs; hide DriverChs; hide Capacity; hide Normalise; hide CountDown;
    image := [];
    var target := BootChs(g, start);
    FirstIsNormal(g, start);
    var left: Word16 := count;
    while left > 0
      invariant |image| + SectorsRead(left) == SectorsRead(count)
      invariant Normalise(g, target) == BootChs(g, start + |image|)
      invariant forall k :: 0 <= k < |image| ==> image[k] == disk(DriverChs(g, start + k))
      decreases SectorsRead(left)
    {
      target := Normalise(g, target);
      BelowCapacity(g, start, SectorsRead(count), |image|);
      DriverAgrees(g, start + |image|);
      AdvanceIsNext(g, start + |image|);
      image := image + [disk(target)];
      target := Advance(target);
      CountDownReads(left);
      left := CountDown(left);
    }
  }
}
