/** Immediate assembly per format (rtl/imm_gen.sv). The vector starts as 32 copies of bit 31 and
    each format overwrites some of its bits. */
module ImmGen {
  import opened Words

  datatype ImmSel = IMM_DEFAULT | IMM_REGIMM | IMM_LOAD | IMM_STORE | IMM_BRANCH | IMM_JALR | IMM_JAL | IMM_UPPER

  function Sign(inst: Word): int { inst / 0x8000_0000 }

  /** Sign-filled word whose low `2^bits` part is replaced by `low`. */
  function Fill(inst: Word, modulus: int, low: int): int
  {
    (if Sign(inst) == 1 then 0x1_0000_0000 - modulus else 0) + low
  }

  function Immediate(sel: ImmSel, inst: Word): Word {
    match sel
    case IMM_DEFAULT => 0
    case IMM_REGIMM => Fill(inst, 4096, inst / 1048576)
    case IMM_LOAD => Fill(inst, 4096, inst / 1048576)
    case IMM_JALR => Fill(inst, 4096, inst / 1048576)
    case IMM_STORE => Fill(inst, 4096, Funct7(inst) * 32 + Rd(inst))
    case IMM_BRANCH =>
      // Bits 12-1 are assigned; bit 0 keeps the fill value.
      Fill(inst, 8192,
           Sign(inst) * 4096 + inst / 128 % 2 * 2048 + inst / 33554432 % 64 * 32 + inst / 256 % 16 * 2 + Sign(inst))
    case IMM_JAL =>
      // Bits 20-1 are assigned; bit 0 keeps the fill value.
      Fill(inst, 2097152,
           Sign(inst) * 1048576 + inst / 4096 % 256 * 4096 + inst / 1048576 % 2 * 2048
           + inst / 2097152 % 1024 * 2 + Sign(inst))
    case IMM_UPPER => inst / 4096
  }
}
