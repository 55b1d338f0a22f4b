/** The instruction set listings of The RISC-V Instruction Set Manual, Volume I, for RV32I without
    FENCE and the system instructions: which word is which mnemonic. Every mnemonic the assembler knows
    is read back from its word, with its registers and immediate. */
module Listings {
  import opened Options
  import opened Words
  import opened AsmLine
  import opened Isa
  import RoundTrip

  function Arithmetic(f7: int, f3: int): Option<Mnemonic> {
    if f7 == 0 then
      match f3
      case 0 => Some(ADD)
      case 1 => Some(SLL)
      case 2 => Some(SLT)
      case 3 => Some(SLTU)
      case 4 => Some(XOR)
      case 5 => Some(SRL)
      case 6 => Some(OR)
      case _ => Some(AND)
    else if f7 == 0x20 && f3 == 0 then Some(SUB)
    else if f7 == 0x20 && f3 == 5 then Some(SRA)
    else None
  }

  function Immediate(f7: int, f3: int): Option<Mnemonic> {
    match f3
    case 0 => Some(ADDI)
    case 1 => if f7 == 0 then Some(SLLI) else None
    case 2 => Some(SLTI)
    case 3 => Some(SLTIU)
    case 4 => Some(XORI)
    case 5 => if f7 == 0 then Some(SRLI) else if f7 == 0x20 then Some(SRAI) else None
    case 6 => Some(ORI)
    case _ => Some(ANDI)
  }

  function LoadOf(f3: int): Option<Mnemonic> {
    match f3
    case 0 => Some(LB)
    case 1 => Some(LH)
    case 2 => Some(LW)
    case 4 => Some(LBU)
    case 5 => Some(LHU)
    case _ => None
  }

  function StoreOf(f3: int): Option<Mnemonic> {
    match f3
    case 0 => Some(SB)
    case 1 => Some(SH)
    case 2 => Some(SW)
    case _ => None
  }

  function BranchOf(f3: int): Option<Mnemonic> {
    match f3
    case 0 => Some(BEQ)
    case 1 => Some(BNE)
    case 4 => Some(BLT)
    case 5 => Some(BGE)
    case 6 => Some(BLTU)
    case 7 => Some(BGEU)
    case _ => None
  }

  /** The mnemonic of a word; the all-zero word is the repository's NOP. */
  function MnemonicOf(w: Word): Option<Mnemonic> {
    if w == 0 then Some(NOP)
    else match Opcode(w)
    case 0x33 => Arithmetic(Funct7(w), Funct3(w))
    case 0x13 => Immediate(Funct7(w), Funct3(w))
    case 0x03 => LoadOf(Funct3(w))
    case 0x23 => StoreOf(Funct3(w))
    case 0x63 => BranchOf(Funct3(w))
    case 0x6f => Some(JAL)
    case 0x67 => if Funct3(w) == 0 then Some(JALR) else None
    case 0x37 => Some(LUI)
    case 0x17 => Some(AUIPC)
    case _ => None
  }

  // ----- format by format -----

  lemma ListedRegReg(line: Line)
    requires line.InsnLine? && ValidRegs(line)
    requires line.insn in {ADD, SUB, SLL, SLT, SLTU, XOR, SRL, SRA, OR, AND}
    ensures var w := Encode(line);
      MnemonicOf(w) == Some(line.insn) && Rd(w) == line.rd && Rs1(w) == line.rs1 && Rs2(w) == line.rs2
  {
    hide Encode;
    RoundTrip.EncodedRegs(line);
  }

  lemma ListedShift(line: Line)
    requires line.InsnLine? && ValidRegs(line) && line.insn in {SLLI, SRLI, SRAI}
    ensures var w := Encode(line);
      MnemonicOf(w) == Some(line.insn) && Rd(w) == line.rd && Rs1(w) == line.rs1 && Rs2(w) == line.imm % 32
  {
    hide Encode;
    RoundTrip.EncodedRegs(line);
  }

  lemma ListedImm(line: Line)
    requires line.InsnLine? && ValidRegs(line)
    requires line.insn in {ADDI, SLTI, SLTIU, XORI, ORI, ANDI, LB, LH, LW, LBU, LHU, JALR}
    ensures var w := Encode(line);
      && MnemonicOf(w) == Some(line.insn) && Rd(w) == line.rd && Rs1(w) == line.rs1
      && (ImmI(w) == line.imm <==> -2048 <= line.imm < 2048)
  {
    hide Encode, SignExtend12;
    RoundTrip.EncodedImm(line);
    RoundTrip.SignExtendBack(line.imm);
  }

  lemma ListedStore(line: Line)
    requires line.InsnLine? && ValidRegs(line) && line.insn in {SB, SH, SW}
    ensures var w := Encode(line);
      && MnemonicOf(w) == Some(line.insn) && Rs1(w) == line.rs1 && Rs2(w) == line.rs2
      && (ImmS(w) == line.imm <==> -2048 <= line.imm < 2048)
  {
    hide Encode, SignExtend12;
    RoundTrip.EncodedStore(line);
    RoundTrip.SignExtendBack(line.imm);
  }

  lemma ListedUpper(line: Line)
    requires line.InsnLine? && ValidRegs(line) && line.insn in {LUI, AUIPC}
    ensures var w := Encode(line);
      MnemonicOf(w) == Some(line.insn) && Rd(w) == line.rd && ImmU(w) == line.imm / 4096 % 0x10_0000
  {
    hide Encode;
    RoundTrip.EncodedUpper(line);
  }

  /** The manual's branch offset survives exactly when it is a multiple of 32 in range. */
  lemma ListedBranch(line: Line)
    requires line.InsnLine? && ValidRegs(line) && line.insn in {BEQ, BNE, BLT, BGE, BLTU, BGEU}
    ensures var w := Encode(line);
      && MnemonicOf(w) == Some(line.insn) && Rs1(w) == line.rs1 && Rs2(w) == line.rs2
      && (ImmB(w) == line.imm <==> -4096 <= line.imm < 4096 && line.imm % 32 == 0)
  {
    hide Encode, ImmB;
    RoundTrip.EncodedBranchRegs(line);
    RoundTrip.EncodedOffset(line);
    OffsetBits(line.imm);
  }

  lemma OffsetBits(imm: int)
    ensures var low := imm / 2048 % 2 * 2048 + imm / 32 % 64 * 32 + RoundTrip.Mangled(imm % 32) * 2;
      low - imm / 4096 % 2 * 4096 == imm <==> -4096 <= imm < 4096 && imm % 32 == 0
  {
    var q, s, b, h, x := imm / 8192, imm / 4096 % 2, imm / 2048 % 2, imm / 32 % 64, imm % 32;
    RoundTrip.DivDiv(imm, 4096, 2);
    RoundTrip.DivDiv(imm, 2048, 2);
    RoundTrip.DivDiv(imm, 32, 64);
    hide RoundTrip.Mangled;
    RoundTrip.LowBits(x);
    OffsetSum(imm, q, s, b, h, x, RoundTrip.Mangled(x) * 2);
  }

  lemma OffsetSum(imm: int, q: int, s: int, b: int, h: int, x: int, y: int)
    requires imm == 8192 * q + 4096 * s + 2048 * b + 32 * h + x
    requires 0 <= s < 2 && 0 <= b < 2 && 0 <= h < 64 && 0 <= x < 32 && 0 <= y < 31 && (y == x <==> x == 0)
    ensures b * 2048 + h * 32 + y - s * 4096 == imm <==> -4096 <= imm < 4096 && x == 0
  {
  }

  lemma ListedJal(line: Line)
    requires line.InsnLine? && ValidRegs(line) && line.insn == JAL
    ensures var w := Encode(line);
      && MnemonicOf(w) == Some(JAL) && Rd(w) == line.rd
      && (ImmJ(w) == line.imm <==> 0 <= line.imm < 0x8_0000 && line.imm % 2 == 0)
  {
    hide Encode;
    RoundTrip.EncodedJump(line);
    JumpBits(line.imm);
  }

  lemma JumpBits(imm: int)
    ensures imm / 4096 % 128 * 4096 + imm / 2048 % 2 * 2048 + imm / 2 % 1024 * 2 == imm <==>
            0 <= imm < 0x8_0000 && imm % 2 == 0
  {
    var q, c, b, a := imm / 0x8_0000, imm / 4096 % 128, imm / 2048 % 2, imm / 2 % 1024;
    RoundTrip.DivDiv(imm, 4096, 128);
    RoundTrip.DivDiv(imm, 2048, 2);
    RoundTrip.DivDiv(imm, 2, 1024);
    assert imm == 0x8_0000 * q + 4096 * c + 2048 * b + 2 * a + imm % 2;
  }

  /** Every mnemonic the assembler knows is read back from its word. */
  lemma ListedBack(line: Line)
    requires line.InsnLine? && ValidRegs(line) && line.insn != UNKNOWN
    ensures MnemonicOf(Encode(line)) == Some(line.insn)
  {
    hide Encode, MnemonicOf;
    if line.insn in {ADD, SUB, SLL, SLT, SLTU, XOR, SRL, SRA, OR, AND} {
      ListedRegReg(line);
    } else if line.insn in {SLLI, SRLI, SRAI} {
      ListedShift(line);
    } else if line.insn in {SB, SH, SW} {
      ListedStore(line);
    } else if line.insn in {LUI, AUIPC} {
      ListedUpper(line);
    } else if line.insn in {BEQ, BNE, BLT, BGE, BLTU, BGEU} {
      ListedBranch(line);
    } else if line.insn == JAL {
      ListedJal(line);
    } else if line.insn == NOP {
      RoundTrip.EncodedNop(line);
      NopListed();
    } else {
      ListedImm(line);
    }
  }

  lemma NopListed()
    ensures MnemonicOf(0) == Some(NOP)
  {
  }

  /** The instructions that decoding is faithful for, by name. */
  lemma SupportedExact(m: Mnemonic)
    ensures RoundTrip.Supported(m) <==>
      m in {NOP, ADD, SUB, AND, OR, XOR, SLL, SRL, ADDI, ANDI, ORI, XORI, SLLI, LUI, LBU, LHU, LW, SB, SH, SW}
  {
  }
}
