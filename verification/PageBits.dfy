/**
  Page-table entries as the kernel's masks write them are the Word records of the model.
 */
module PageBits {
  import opened Words
  import opened Bits
  import AddressSpace
  import CopyOnWrite

  function ToWord(b: Fields): Word {
    Word(b.addr as nat / 0x1000, b.p, b.w, b.u, b.cow, b.xd, b.low as nat, b.high as nat)
  }

  function Decode(e: bv64): Word {
    ToWord(Split(e))
  }

  function FrameOf(phys: bv64): nat {
    phys as nat / 0x1000
  }

  /** fork's update of the parent's entry. */
  lemma ForkEntry(e: bv64)
    ensures Decode(ForkBits(e)) == CopyOnWrite.Shared(Decode(e))
  {
    ForkMasks(e);
    ForkFlags(e);
    hide ForkBits; hide Addr; hide Low; hide High; hide Present; hide Writable; hide User; hide IsCow; hide NoExecute;
  }

  /** alloc_page's new entry. */
  lemma AllocEntry(phys: bv64, e: bv64, xd: bool)
    requires PageAligned(phys)
    ensures Decode(AllocBits(phys, e, xd)) == AddressSpace.NewEntry(FrameOf(phys), Decode(e), xd)
  {
    AllocMasks(phys, e, xd);
    AllocFlags(phys, e, xd);
    hide AllocBits; hide Addr; hide Low; hide High; hide Present; hide Writable; hide User; hide IsCow; hide NoExecute;
  }

  /** The entry of a resolved copy-on-write page. */
  lemma CowEntry(phys: bv64, e: bv64)
    requires PageAligned(phys)
    ensures Decode(CowBits(phys, e)) == CopyOnWrite.Unshared(Decode(e), FrameOf(phys))
  {
    CowMasks(phys, e);
    CowFlags(phys, e);
    hide CowBits; hide Addr; hide Low; hide High; hide Present; hide Writable; hide User; hide IsCow; hide NoExecute;
  }
}
