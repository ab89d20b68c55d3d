/**
  The state the kernel's memory manager starts from (InitMem in
  src/kernel/drivers/LowLevel/Memory.c): the tables of the direct map, the frames up to some `top`
  the kernel's, all others free.  The heap's PageCount may be smaller: mapping memory above 128 MiB
  has taken frames past it for tables.
 */
module Boot {
  import opened Wrappers
  import opened Words
  import opened PageTables
  import opened AddressSpace
  import opened DirectMap

  const ROOT: nat := 1
  const KERNEL_PDPT: nat := 2
  const FIRST_PD: nat := 3

  /** How many page tables map so many frames, and how many tables above map those. */
  function Tables(frames: nat): nat {
    (frames + 511) / 512
  }

  function Directories(frames: nat): nat {
    Tables(Tables(frames))
  }

  function FirstPt(frames: nat): nat {
    FIRST_PD + Directories(frames)
  }

  /** A table of consecutive frames from `first` on, of which entries up to `count` exist. */
  function Row(first: nat, count: int): (r: seq<Word>)
    ensures |r| == ENTRIES
  {
    seq<Word>(ENTRIES, j requires j >= 0 => if j < count then KERNEL_FLAGS.(frame := first + j) else ZERO)
  }

  function BootFrame(frames: nat, f: nat): (r: seq<Word>)
    ensures |r| == ENTRIES
  {
    var pt := FirstPt(frames);
    if f == ROOT then Zeros()[KERNEL_SLOT := KERNEL_FLAGS.(frame := KERNEL_PDPT)]
    else if f == KERNEL_PDPT then Row(FIRST_PD, Directories(frames))
    else if FIRST_PD <= f < pt then Row(pt + 512 * (f - FIRST_PD), Tables(frames) - 512 * (f - FIRST_PD))
    else if pt <= f < pt + Tables(frames) then Row(512 * (f - pt), frames - 512 * (f - pt))
    else Zeros()
  }

  function BootRole(frames: nat, f: nat): Role {
    var pt := FirstPt(frames);
    if f == ROOT then RootRole(ROOT)
    else if f == KERNEL_PDPT then Tab(Kernel, 3, KERNEL_SLOT)
    else if FIRST_PD <= f < pt then Tab(Kernel, 2, KERNEL_SLOT * 512 + (f - FIRST_PD))
    else if pt <= f < pt + Tables(frames) then Tab(Kernel, 1, KERNEL_SLOT * 512 * 512 + (f - pt))
    else Plain
  }

  function BootInfo(top: nat, f: nat): FrameInfo {
    if f <= top then FrameInfo(0, true, false, true) else FrameInfo(0, false, false, false)
  }

  /** The direct map fits in the kernel's slot, and its tables lie among the kernel's frames. */
  predicate BootFits(frames: nat, kpages: nat, top: nat) {
    frames <= 0x800_0000 && FirstPt(frames) + Tables(frames) <= top + 1 && kpages <= top < frames
  }

  function Booted(frames: nat, kpages: nat, top: nat): Sys {
    Sys(seq<seq<Word>>(frames, f requires f >= 0 => BootFrame(frames, f)), seq<FrameInfo>(frames, f requires f >= 0 => BootInfo(top, f)),
        seq<Role>(frames, f requires f >= 0 => BootRole(frames, f)), ROOT, kpages)
  }

  lemma RowAt(first: nat, count: int, j: nat)
    requires j < ENTRIES
    ensures Row(first, count)[j] == if j < count then KERNEL_FLAGS.(frame := first + j) else ZERO
  {
  }

  lemma TablesBound(frames: nat)
    requires frames <= 0x800_0000
    ensures Tables(frames) <= 0x4_0000 && Directories(frames) <= ENTRIES
  {
  }

  lemma BootLinked(frames: nat, kpages: nat, top: nat, f: nat, i: nat)
    requires BootFits(frames, kpages, top) && f < frames && i < ENTRIES
    requires BootRole(frames, f).Tab? && BootRole(frames, f).level > 1 && BootFrame(frames, f)[i].p
    ensures var c := BootFrame(frames, f)[i].frame; c < frames && BootRole(frames, c) == ChildRole(BootRole(frames, f), i)
  {
    TablesBound(frames);
    hide Tables; hide Directories; hide Row;
    var pt := FirstPt(frames);
    if f == KERNEL_PDPT {
      RowAt(FIRST_PD, Directories(frames), i);
    } else if f != ROOT {
      RowAt(pt + 512 * (f - FIRST_PD), Tables(frames) - 512 * (f - FIRST_PD), i);
    }
  }

  lemma BootInv(frames: nat, kpages: nat, top: nat)
    requires BootFits(frames, kpages, top)
    ensures Inv(Booted(frames, kpages, top)) && forall r: nat :: IsRoot(Booted(frames, kpages, top).role, r) <==> r == ROOT
  {
    var s := Booted(frames, kpages, top);
    hide BootFrame; hide Tables; hide Directories;
    forall f, i | 0 <= f < frames && 0 <= i < ENTRIES && s.role[f].Tab? && s.role[f].level > 1 && s.mem[f][i].p
      ensures s.mem[f][i].frame < frames && s.role[s.mem[f][i].frame] == ChildRole(s.role[f], i)
    {
      BootLinked(frames, kpages, top, f, i);
    }
    BootRoot(frames);
  }

  lemma BootRoot(frames: nat)
    ensures BootFrame(frames, ROOT)[KERNEL_SLOT] == KERNEL_FLAGS.(frame := KERNEL_PDPT)
    ensures forall i :: 0 <= i < ENTRIES && i != KERNEL_SLOT ==> BootFrame(frames, ROOT)[i] == ZERO
  {
  }

  lemma DirectHigh(f: nat)
    requires f < 0x800_0000
    ensures Index(USER_PAGES + f, 4) == KERNEL_SLOT && Index(USER_PAGES + f, 3) == f / 0x4_0000
  {
    assert (USER_PAGES + f) / 0x800_0000 == 0x100;
    assert (USER_PAGES + f) / 0x4_0000 == 0x2_0000 + f / 0x4_0000;
  }

  lemma DirectLow(f: nat)
    requires f < 0x800_0000
    ensures Index(USER_PAGES + f, 2) == f / 512 % 512 && Index(USER_PAGES + f, 1) == f % 512
  {
    assert (USER_PAGES + f) / 512 == 0x400_0000 + f / 512;
  }

  /** Frame f's page table, and that table's directory. */
  lemma DirectTables(frames: nat, f: nat)
    requires f < frames <= 0x800_0000
    ensures f / 512 < Tables(frames) && f / 0x4_0000 < Directories(frames)
    ensures 512 * (f / 0x4_0000) + f / 512 % 512 == f / 512 && 512 * (f / 512) + f % 512 == f
  {
    assert f / 0x4_0000 == f / 512 / 512;
  }

  lemma BootWalk(frames: nat, kpages: nat, top: nat, f: nat)
    requires BootFits(frames, kpages, top) && f < frames
    ensures var m := Booted(frames, kpages, top).mem; var n := USER_PAGES + f;
            && Table(m, ROOT, n, 3) == Some(KERNEL_PDPT)
            && Table(m, ROOT, n, 2) == Some(FIRST_PD + f / 0x4_0000)
            && Table(m, ROOT, n, 1) == Some(FirstPt(frames) + f / 512)
  {
    DirectHigh(f);
    DirectLow(f);
    DirectTables(frames, f);
    TablesBound(frames);
    hide Tables; hide Directories; hide Row; hide Index;
    var m := Booted(frames, kpages, top).mem;
    var n, d := USER_PAGES + f, f / 0x4_0000;
    BootRoot(frames);
    assert Peek(m, ROOT, Index(n, 4)) == KERNEL_FLAGS.(frame := KERNEL_PDPT);
    RowAt(FIRST_PD, Directories(frames), d);
    assert Peek(m, KERNEL_PDPT, Index(n, 3)) == KERNEL_FLAGS.(frame := FIRST_PD + d);
    RowAt(FirstPt(frames) + 512 * d, Tables(frames) - 512 * d, f / 512 % 512);
    assert Peek(m, FIRST_PD + d, Index(n, 2)) == KERNEL_FLAGS.(frame := FirstPt(frames) + f / 512);
    hide Booted; hide BootFrame;
    assert Table(m, ROOT, n, 4) == Some(ROOT);
  }

  /** At boot every frame is directly mapped. */
  lemma BootDirectMapped(frames: nat, kpages: nat, top: nat, f: nat)
    requires BootFits(frames, kpages, top) && f < frames
    ensures DirectMapped(Booted(frames, kpages, top), f)
  {
    BootWalk(frames, kpages, top, f);
    DirectLow(f);
    DirectTables(frames, f);
    hide Tables; hide Directories; hide Row; hide Index; hide Table;
    var m := Booted(frames, kpages, top).mem;
    RowAt(512 * (f / 512), frames - 512 * (f / 512), f % 512);
    assert Peek(m, FirstPt(frames) + f / 512, Index(USER_PAGES + f, 1)) == KERNEL_FLAGS.(frame := f);
  }
}
