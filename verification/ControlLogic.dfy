/** The control signals (rtl/control_logic.sv) as functions of the fetched instruction and of the
    instructions held in `inst_reg0` (execute), `inst_reg1` (memory) and `inst_reg2` (write-back),
    with reset low. Where the source overrides an earlier assignment the last one is tested first. */
module ControlLogic {
  import opened Words
  import opened Alu
  import opened ImmGen

  const INST_REGREG := 0x33
  const INST_REGIMM := 0x13
  const INST_LOAD := 0x03
  const INST_STORE := 0x23
  const INST_BRANCH := 0x63
  const INST_JALR := 0x67
  const INST_JAL := 0x6f
  const INST_LUI := 0x37
  const INST_AUIPC := 0x17
  const INST_NOP := 0x00

  datatype Source = FromRegister | FromAlu | FromWriteBack
  datatype MemSize = BYTE | HALF | WORD

  // ----- decode stage -----

  function ImmSelOf(inst: Word): ImmSel {
    match Opcode(inst)
    case 0x13 => IMM_REGIMM
    case 0x03 => IMM_LOAD
    case 0x23 => IMM_STORE
    case 0x63 => IMM_BRANCH
    case 0x67 => IMM_JALR
    case 0x6f => IMM_JAL
    case 0x37 => IMM_UPPER
    case 0x17 => IMM_UPPER
    case _ => IMM_DEFAULT
  }

  // ----- execute stage -----

  /** The instruction has a result to forward. */
  predicate HasResult(inst: Word) {
    Opcode(inst) != INST_BRANCH && Opcode(inst) != INST_NOP && Opcode(inst) != INST_STORE
  }

  predicate NeedsSecond(inst: Word) {
    Opcode(inst) == INST_BRANCH || Opcode(inst) == INST_STORE || Opcode(inst) == INST_REGREG
  }

  function A1Sel(reg0: Word, reg1: Word, reg2: Word): Source {
    if Opcode(reg0) == INST_NOP then FromRegister
    else if HasResult(reg1) && Rd(reg1) == Rs1(reg0) then FromAlu
    else if HasResult(reg2) && Rd(reg2) == Rs1(reg0) then FromWriteBack
    else FromRegister
  }

  function B1Sel(reg0: Word, reg1: Word, reg2: Word): Source {
    if Opcode(reg0) == INST_NOP || !NeedsSecond(reg0) then FromRegister
    else if HasResult(reg1) && Rd(reg1) == Rs2(reg0) then FromAlu
    else if HasResult(reg2) && Rd(reg2) == Rs2(reg0) then FromWriteBack
    else FromRegister
  }

  /** True: the PC replaces the first operand. */
  predicate A2Sel(reg0: Word) {
    Opcode(reg0) == INST_BRANCH || Opcode(reg0) == INST_JAL || Opcode(reg0) == INST_JALR || Opcode(reg0) == INST_AUIPC
  }

  /** True: the immediate replaces the second operand. */
  predicate B2Sel(reg0: Word) {
    Opcode(reg0) != INST_NOP && Opcode(reg0) != INST_REGREG
  }

  predicate BrUn(reg0: Word) {
    || (Opcode(reg0) == INST_BRANCH && Funct3(reg0) / 2 == 3)
    || ((Opcode(reg0) == INST_REGREG || Opcode(reg0) == INST_REGIMM) && Funct3(reg0) == 3)
  }

  /** The branch condition selected by funct3. */
  predicate Taken(reg0: Word, brEq: bool, brLt: bool) {
    match Funct3(reg0)
    case 0 => brEq
    case 1 => !brEq
    case 4 => brLt
    case 5 => brEq || !brLt
    case 6 => brLt
    case 7 => brEq || !brLt
    case _ => false
  }

  function SetLess(brEq: bool, brLt: bool): AluOp {
    if brLt && !brEq then OUT_ONE else OUT_ZERO
  }

  function RegRegOp(reg0: Word, brEq: bool, brLt: bool): AluOp {
    match Funct3(reg0)
    case 0 => if Funct7(reg0) == 0 then ADD else if Funct7(reg0) == 32 then SUB else OUT_ZERO
    case 1 => SLL
    case 2 => SetLess(brEq, brLt)
    case 3 => SetLess(brEq, brLt)
    case 4 => XOR
    case 5 => if Funct7(reg0) == 0 then SRL else if Funct7(reg0) == 32 then SRA else OUT_ZERO
    case 6 => OR
    case _ => AND
  }

  function RegImmOp(reg0: Word, brEq: bool, brLt: bool): AluOp {
    match Funct3(reg0)
    case 0 => ADD
    case 1 => SLL
    case 2 => SetLess(brEq, brLt)
    case 3 => SetLess(brEq, brLt)
    case 4 => XOR
    case 6 => OR
    case 7 => AND
    case _ => OUT_ZERO                     // SRLI and SRAI are not decoded
  }

  function AluOpOf(reg0: Word, brEq: bool, brLt: bool): AluOp {
    match Opcode(reg0)
    case 0x33 => RegRegOp(reg0, brEq, brLt)
    case 0x13 => RegImmOp(reg0, brEq, brLt)
    case 0x03 => ADD
    case 0x23 => ADD
    case 0x63 => if Taken(reg0, brEq, brLt) then ADD else OUT_ZERO
    case 0x67 => ADD
    case 0x6f => ADD
    case 0x37 => LUI
    case 0x17 => AUIPC
    case _ => OUT_ZERO
  }

  // ----- memory stage -----

  predicate MemRw(reg1: Word) {
    Opcode(reg1) == INST_STORE
  }

  function MemSizeOf(reg1: Word): MemSize {
    if Opcode(reg1) == INST_NOP then BYTE
    else match Funct3(reg1)
    case 1 => HALF
    case 2 => WORD
    case 5 => HALF
    case _ => BYTE
  }

  // ----- write-back stage -----

  predicate WbSel1(reg2: Word) {
    Opcode(reg2) != INST_NOP && Opcode(reg2) != INST_LOAD
  }

  predicate WbSel2(reg2: Word) {
    Opcode(reg2) == INST_JALR || Opcode(reg2) == INST_JAL
  }

  predicate RegWEn(reg2: Word) {
    HasResult(reg2)
  }

  predicate PcSel(reg0: Word, reg2: Word, brEq: bool, brLt: bool) {
    || (Opcode(reg0) == INST_BRANCH && Taken(reg0, brEq, brLt))
    || Opcode(reg2) == INST_BRANCH || Opcode(reg2) == INST_JAL || Opcode(reg2) == INST_JALR
  }
}
