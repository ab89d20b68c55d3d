/**
  The interrupt frame: the register image saved and restored around every kernel entry.
 */
module Registers {

  const TWO_64: nat := 0x1_0000_0000_0000_0000

  /** A 64-bit register or memory word. */
  type U64 = n: nat | n < TWO_64

  datatype Regs = Regs(
    intNo: U64, cr2: U64,
    r15: U64, r14: U64, r13: U64, r12: U64, r11: U64, r10: U64, r9: U64, r8: U64,
    rdi: U64, rsi: U64, rbp: U64, rbx: U64, rdx: U64, rcx: U64, rax: U64,
    errorCode: U64, rip: U64, cs: U64, rflags: U64, rsp: U64, ss: U64)

  /** A register image cleared by memset. */
  const CLEARED := Regs(0, 0, 0, 0, 0, 0, 0, 0, 0, 0, 0, 0, 0, 0, 0, 0, 0, 0, 0, 0, 0, 0, 0)
}
