/**
  Pure bit-vector facts behind page-table entries and virtual addresses.
 */
module Bits {

  // ---------------------------------------------------------------------------------
  // Virtual addresses
  // ---------------------------------------------------------------------------------

  datatype PageEntries = PageEntries(pml4: bv64, pdpt: bv64, pd: bv64, pt: bv64, offset: bv64)

  /** Bit 47 copied into bits 48 to 63: the effect of (int64_t)(a << 16) >> 16. */
  function SignExtend(a: bv64): bv64 {
    if a & 0x8000_0000_0000 != 0 then a | 0xFFFF_0000_0000_0000 else a & 0xFFFF_FFFF_FFFF
  }

  predicate Canonical(va: bv64) {
    SignExtend(va) == va
  }

  predicate InRange(e: PageEntries) {
    e.pml4 <= 0x1FF && e.pdpt <= 0x1FF && e.pd <= 0x1FF && e.pt <= 0x1FF && e.offset <= 0xFFF
  }

  lemma Slices(va: bv64)
    ensures ((va >> 39) & 0x1FF) << 39 == va & 0xFF80_0000_0000
    ensures ((va >> 30) & 0x1FF) << 30 == va & 0x7F_C000_0000
    ensures ((va >> 21) & 0x1FF) << 21 == va & 0x3FE0_0000
    ensures ((va >> 12) & 0x1FF) << 12 == va & 0x1F_F000
    ensures (va & 0xFF80_0000_0000) | (va & 0x7F_C000_0000) | (va & 0x3FE0_0000) | (va & 0x1F_F000) | (va & 0xFFF)
         == va & 0xFFFF_FFFF_FFFF
    ensures SignExtend(va & 0xFFFF_FFFF_FFFF) == SignExtend(va)
  {
  }

  /** ExtractPageEntries */
  function ExtractPageEntries(va: bv64): PageEntries {
    PageEntries((va >> 39) & 0x1FF, (va >> 30) & 0x1FF, (va >> 21) & 0x1FF, (va >> 12) & 0x1FF, va & 0xFFF)
  }

  /** CalculatePageAddress */
  function CalculatePageAddress(e: PageEntries): bv64 {
    SignExtend(((e.pml4 & 0x1FF) << 39) | ((e.pdpt & 0x1FF) << 30) | ((e.pd & 0x1FF) << 21) | ((e.pt & 0x1FF) << 12)
               | (e.offset & 0xFFF))
  }

  lemma Masked(x: bv64)
    ensures x & 0x1FF & 0x1FF == x & 0x1FF
  {
  }

  /** Putting the pieces of an address together again gives its canonical form, and so gives
      the address back exactly when it was canonical. */
  lemma CalculateOfExtract(va: bv64)
    ensures CalculatePageAddress(ExtractPageEntries(va)) == SignExtend(va)
    ensures CalculatePageAddress(ExtractPageEntries(va)) == va <==> Canonical(va)
  {
    Slices(va);
    Masked(va >> 39);
    Masked(va >> 30);
    Masked(va >> 21);
    Masked(va >> 12);
    hide SignExtend;
  }

  function Assemble(e: PageEntries): bv64 {
    SignExtend((e.pml4 << 39) | (e.pdpt << 30) | (e.pd << 21) | (e.pt << 12) | e.offset)
  }

  lemma Pieces(e: PageEntries)
    requires InRange(e)
    ensures var x := ExtractPageEntries(Assemble(e));
            x.pml4 == e.pml4 && x.pdpt == e.pdpt && x.pd == e.pd && x.pt == e.pt && x.offset == e.offset
  {
  }

  lemma InRangeMasks(e: PageEntries)
    requires InRange(e)
    ensures e.pml4 & 0x1FF == e.pml4 && e.pdpt & 0x1FF == e.pdpt && e.pd & 0x1FF == e.pd && e.pt & 0x1FF == e.pt
    ensures e.offset & 0xFFF == e.offset
  {
  }

  /** Pieces in range, masked again, are the pieces. */
  lemma CalculateInRange(e: PageEntries)
    requires InRange(e)
    ensures CalculatePageAddress(e) == Assemble(e)
  {
    hide SignExtend;
    InRangeMasks(e);
  }

  /** The other direction of the inverse: pieces in range survive the round trip. */
  lemma ExtractOfCalculate(e: PageEntries)
    requires InRange(e)
    ensures ExtractPageEntries(CalculatePageAddress(e)) == e
  {
    hide *;
    CalculateInRange(e);
    Pieces(e);
  }

  /** The kernel's own test for canonical addresses. */
  predicate IsCanonical(addr: bv64) {
    addr >> 47 == 0 || addr >> 47 == 0x1_FFFF_FFFF
  }

  /** It recognises the lower half only, and so errs on exactly the canonical addresses of the
      upper half. */
  lemma IsCanonicalIff(addr: bv64)
    ensures IsCanonical(addr) <==> addr < 0x8000_0000_0000
    ensures IsCanonical(addr) != Canonical(addr) <==> addr >= 0xFFFF_8000_0000_0000
  {
    assert addr >> 47 == 0 <==> addr < 0x8000_0000_0000;
    assert addr >> 47 != 0x1_FFFF_FFFF;
    assert Canonical(addr) <==> addr < 0x8000_0000_0000 || addr >= 0xFFFF_8000_0000_0000;
  }

  // ---------------------------------------------------------------------------------
  // Page-table entries
  // ---------------------------------------------------------------------------------

  /** The bits of an entry, grouped: the frame's address, the flags the kernel uses, the no-
      execute bit, and what is left below and above the address. */
  datatype Fields = Fields(addr: bv64, p: bool, w: bool, u: bool, cow: bool, xd: bool, low: bv64, high: bv64)

  function Addr(e: bv64): bv64 { e & 0x000F_FFFF_FFFF_F000 }
  predicate Present(e: bv64) { e & 1 != 0 }
  predicate Writable(e: bv64) { e & 2 != 0 }
  predicate User(e: bv64) { e & 4 != 0 }
  predicate IsCow(e: bv64) { e & 0x200 != 0 }
  predicate NoExecute(e: bv64) { e & 0x8000_0000_0000_0000 != 0 }
  function Low(e: bv64): bv64 { e & 0xDF8 }
  function High(e: bv64): bv64 { e & 0x7FF0_0000_0000_0000 }

  function Split(e: bv64): Fields {
    Fields(Addr(e), Present(e), Writable(e), User(e), IsCow(e), NoExecute(e), Low(e), High(e))
  }

  /** A page-aligned physical address that an entry can hold. */
  predicate PageAligned(phys: bv64) {
    Addr(phys) == phys
  }

  function Bit63(b: bool): bv64 {
    if b then 0x8000_0000_0000_0000 else 0
  }

  /** What fork does to the parent's entry: bit 9 set, bit 1 cleared. */
  function ForkBits(e: bv64): bv64 {
    (e | 0x200) & 0xFFFF_FFFF_FFFF_FFFD
  }

  lemma ForkMasks(e: bv64)
    ensures Addr(ForkBits(e)) == Addr(e) && Low(ForkBits(e)) == Low(e) && High(ForkBits(e)) == High(e)
  {
  }

  lemma ForkFlags(e: bv64)
    ensures Present(ForkBits(e)) == Present(e) && !Writable(ForkBits(e)) && User(ForkBits(e)) == User(e)
    ensures IsCow(ForkBits(e)) && NoExecute(ForkBits(e)) == NoExecute(e)
  {
  }

  /** alloc_page: physical address, the low twelve flag bits of e, and the no-execute bit. */
  function AllocBits(phys: bv64, e: bv64, xd: bool): bv64 {
    phys | (e & 0xFFF) | Bit63(xd)
  }

  lemma AllocMasks(phys: bv64, e: bv64, xd: bool)
    requires PageAligned(phys)
    ensures Addr(AllocBits(phys, e, xd)) == phys
    ensures Low(AllocBits(phys, e, xd)) == Low(e) && High(AllocBits(phys, e, xd)) == 0
  {
  }

  lemma AllocFlags(phys: bv64, e: bv64, xd: bool)
    requires PageAligned(phys)
    ensures Present(AllocBits(phys, e, xd)) == Present(e) && Writable(AllocBits(phys, e, xd)) == Writable(e)
    ensures User(AllocBits(phys, e, xd)) == User(e) && IsCow(AllocBits(phys, e, xd)) == IsCow(e)
    ensures NoExecute(AllocBits(phys, e, xd)) == xd
  {
  }

  /** What the page-fault handler makes of an entry: its low twelve bits, with bits 0 and 1 set and
      bit 9 cleared, and its top bit, with the given frame's address. */
  function CowBits(phys: bv64, e: bv64): bv64 {
    phys | (e & 0x8000_0000_0000_0000) | (((e & 0xFFF) | 3) & 0xFDFF)
  }

  lemma CowMasks(phys: bv64, e: bv64)
    requires PageAligned(phys)
    ensures Addr(CowBits(phys, e)) == phys && Low(CowBits(phys, e)) == Low(e) && High(CowBits(phys, e)) == 0
  {
  }

  lemma CowFlags(phys: bv64, e: bv64)
    requires PageAligned(phys)
    ensures Present(CowBits(phys, e)) && Writable(CowBits(phys, e)) && User(CowBits(phys, e)) == User(e)
    ensures !IsCow(CowBits(phys, e)) && NoExecute(CowBits(phys, e)) == NoExecute(e)
  {
  }
}
