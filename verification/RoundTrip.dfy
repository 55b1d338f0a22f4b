/** The assembler's encoder against the two decoders: the manual's (Isa) and the processor's
    (ImmGen, ControlLogic). Each format's offset or immediate comes back exactly when it fits. */
module RoundTrip {
  import opened Options
  import opened Words
  import opened Binary
  import opened AsmLine
  import opened ControlLogic
  import ImmGen
  import Isa
  import Stages

  /** A C `int`. */
  predicate FitsCInt(x: int) {
    -0x8000_0000 <= x < 0x8000_0000
  }

  // ----- taking a word apart -----

  /** The R layout, read back field by field. */
  lemma Apart(w: Word, f7: int, rs2: RegNo, rs1: RegNo, f3: int, rd: RegNo, op: int)
    requires 0 <= f7 < 128 && 0 <= f3 < 8 && 0 <= op < 128
    requires w == ((((f7 * 32 + rs2) * 32 + rs1) * 8 + f3) * 32 + rd) * 128 + op
    ensures Funct7(w) == f7 && Rs2(w) == rs2 && Rs1(w) == rs1 && Funct3(w) == f3 && Rd(w) == rd && Opcode(w) == op
    ensures w / 1048576 == f7 * 32 + rs2
  {
    var x5 := f7 * 32 + rs2;
    var x4 := x5 * 32 + rs1;
    var x3 := x4 * 8 + f3;
    var x2 := x3 * 32 + rd;
    ModUnique(w, 128, x2, op);
    ModUnique(w, 4096, x3, rd * 128 + op);
    ModUnique(w, 32768, x4, (f3 * 32 + rd) * 128 + op);
    ModUnique(w, 1048576, x5, ((rs1 * 8 + f3) * 32 + rd) * 128 + op);
    ModUnique(w, 33554432, f7, (((rs2 * 32 + rs1) * 8 + f3) * 32 + rd) * 128 + op);
    ModUnique(x2, 32, x3, rd);
    ModUnique(x3, 8, x4, f3);
    ModUnique(x4, 32, x5, rs1);
    ModUnique(x5, 32, f7, rs2);
  }

  /** Appending a field of a known width is linear. */
  lemma Appended(n: nat, f: Field, p: nat) returns (m: nat)
    requires (f.width, p) in {(1, 2), (3, 8), (4, 16), (5, 32), (6, 64), (7, 128), (8, 256), (10, 1024),
      (12, 4096), (20, 1048576)}
    ensures m == Append(n, f) == n * p + f.value % p
  {
    assert Pow2(8) == 256;
    assert Pow2(12) == 4096;
    assert Pow2(16) == 65536;
    m := n * p + f.value % p;
  }

  lemma PackR(fs: seq<Field>)
    requires |fs| == 6 && fs[0].width == 7 && fs[1].width == 5 && fs[2].width == 5 && fs[3].width == 3
      && fs[4].width == 5 && fs[5].width == 7
    ensures Pack(fs) ==
            (((((fs[0].value % 128) * 32 + fs[1].value % 32) * 32 + fs[2].value % 32)
             * 8 + fs[3].value % 8) * 32 + fs[4].value % 32) * 128 + fs[5].value % 128
  {
    hide Pack, Append, Pow2;
    Unfold6(fs);
    var x := 0;
    x := Appended(x, fs[0], 128);
    x := Appended(x, fs[1], 32);
    x := Appended(x, fs[2], 32);
    x := Appended(x, fs[3], 8);
    x := Appended(x, fs[4], 32);
    x := Appended(x, fs[5], 128);
  }

  lemma PackI(fs: seq<Field>)
    requires |fs| == 5 && fs[0].width == 12 && fs[1].width == 5 && fs[2].width == 3 && fs[3].width == 5
      && fs[4].width == 7
    ensures Pack(fs) ==
            ((((fs[0].value % 4096) * 32 + fs[1].value % 32) * 8 + fs[2].value % 8)
             * 32 + fs[3].value % 32) * 128 + fs[4].value % 128
  {
    hide Pack, Append, Pow2;
    Unfold5(fs);
    var x := 0;
    x := Appended(x, fs[0], 4096);
    x := Appended(x, fs[1], 32);
    x := Appended(x, fs[2], 8);
    x := Appended(x, fs[3], 32);
    x := Appended(x, fs[4], 128);
  }

  lemma PackU(fs: seq<Field>)
    requires |fs| == 3 && fs[0].width == 20 && fs[1].width == 5 && fs[2].width == 7
    ensures Pack(fs) ==
            ((fs[0].value % 1048576) * 32 + fs[1].value % 32)
             * 128 + fs[2].value % 128
  {
    hide Pack, Append, Pow2;
    Unfold3(fs);
    var x := 0;
    x := Appended(x, fs[0], 1048576);
    x := Appended(x, fs[1], 32);
    x := Appended(x, fs[2], 128);
  }

  lemma PackJ(fs: seq<Field>)
    requires |fs| == 6 && fs[0].width == 1 && fs[1].width == 10 && fs[2].width == 1 && fs[3].width == 8
      && fs[4].width == 5 && fs[5].width == 7
    ensures Pack(fs) ==
            (((((fs[0].value % 2) * 1024 + fs[1].value % 1024) * 2 + fs[2].value % 2) * 256 + fs[3].value % 256)
             * 32 + fs[4].value % 32) * 128 + fs[5].value % 128
  {
    hide Pack, Append, Pow2;
    Unfold6(fs);
    var x := 0;
    x := Appended(x, fs[0], 2);
    x := Appended(x, fs[1], 1024);
    x := Appended(x, fs[2], 2);
    x := Appended(x, fs[3], 256);
    x := Appended(x, fs[4], 32);
    x := Appended(x, fs[5], 128);
  }

  lemma PackB(fs: seq<Field>)
    requires |fs| == 8 && fs[0].width == 1 && fs[1].width == 6 && fs[2].width == 5 && fs[3].width == 5
      && fs[4].width == 3 && fs[5].width == 4 && fs[6].width == 1 && fs[7].width == 7
    ensures Pack(fs) ==
            (((((((fs[0].value % 2) * 64 + fs[1].value % 64) * 32 + fs[2].value % 32) * 32 + fs[3].value % 32)
             * 8 + fs[4].value % 8) * 16 + fs[5].value % 16) * 2 + fs[6].value % 2) * 128 + fs[7].value % 128
  {
    hide Pack, Append, Pow2;
    Unfold8(fs);
    var x := 0;
    x := Appended(x, fs[0], 2);
    x := Appended(x, fs[1], 64);
    x := Appended(x, fs[2], 32);
    x := Appended(x, fs[3], 32);
    x := Appended(x, fs[4], 8);
    x := Appended(x, fs[5], 16);
    x := Appended(x, fs[6], 2);
    x := Appended(x, fs[7], 128);
  }

  /** The word of each layout, read back field by field. */
  lemma EncodedRegs(line: Line)
    requires line.InsnLine? && ValidRegs(line)
    requires TypeOf(line.insn) == TYPE_REGREG || IsShift(line.insn)
    ensures var w := Encode(line);
      && Funct7(w) == Funct7Of(line.insn) && Rs1(w) == line.rs1 && Rd(w) == line.rd
      && Rs2(w) == (if IsShift(line.insn) then line.imm % 32 else line.rs2)
      && Funct3(w) == Funct3Of(line.insn) && Opcode(w) == OpcodeOf(TypeOf(line.insn))
  {
    hide Encode;
    RegsWord(line);
    Apart(Encode(line), Funct7Of(line.insn), if IsShift(line.insn) then line.imm % 32 else line.rs2, line.rs1,
          Funct3Of(line.insn), line.rd, OpcodeOf(TypeOf(line.insn)));
  }

  lemma RegsWord(line: Line)
    requires line.InsnLine? && ValidRegs(line)
    requires TypeOf(line.insn) == TYPE_REGREG || IsShift(line.insn)
    ensures var rs2 := if IsShift(line.insn) then line.imm % 32 else line.rs2;
      Encode(line) ==
        ((((Funct7Of(line.insn) * 32 + rs2) * 32 + line.rs1) * 8 + Funct3Of(line.insn)) * 32 + line.rd) * 128
                      + OpcodeOf(TypeOf(line.insn))
  {
    hide Pack;
    var l, rs2 := Layout(line), if IsShift(line.insn) then line.imm % 32 else line.rs2;
    assert l[1].value % 32 == rs2;
    RegsPack(l, Funct7Of(line.insn), rs2, line.rs1, Funct3Of(line.insn), line.rd, OpcodeOf(TypeOf(line.insn)));
  }

  lemma RegsPack(l: seq<Field>, f7: int, rs2: RegNo, rs1: RegNo, f3: int, rd: RegNo, op: int)
    requires |l| == 6 && 0 <= f7 < 128 && 0 <= f3 < 8 && 0 <= op < 128
    requires l[0] == Field(f7, 7) && l[1].width == 5 && l[1].value % 32 == rs2 && l[2] == Field(rs1, 5)
    requires l[3] == Field(f3, 3) && l[4] == Field(rd, 5) && l[5] == Field(op, 7)
    ensures Pack(l) == ((((f7 * 32 + rs2) * 32 + rs1) * 8 + f3) * 32 + rd) * 128 + op
  {
    hide Pack;
    PackR(l);
    Small(f7, 128);
    Small(rs1, 32);
    Small(f3, 8);
    Small(rd, 32);
    Small(op, 128);
  }

  lemma SplitImm(imm: int)
    ensures imm % 4096 == imm / 32 % 128 * 32 + imm % 32
  {
  }

  lemma ImmWord(line: Line)
    requires line.InsnLine? && ValidRegs(line) && !IsShift(line.insn)
    requires TypeOf(line.insn) in {TYPE_REGIMM, TYPE_LOAD, TYPE_JALR}
    ensures line.imm / 32 % 128 * 32 + line.imm % 32 == line.imm % 4096
    ensures Encode(line) ==
            ((((line.imm / 32 % 128 * 32 + line.imm % 32) * 32 + line.rs1) * 8 + Funct3Of(line.insn)) * 32
              + line.rd) * 128
            + OpcodeOf(TypeOf(line.insn))
  {
    hide Pack;
    PackI(Layout(line));
    SplitImm(line.imm);
  }

  lemma EncodedImm(line: Line)
    requires line.InsnLine? && ValidRegs(line) && !IsShift(line.insn)
    requires TypeOf(line.insn) in {TYPE_REGIMM, TYPE_LOAD, TYPE_JALR}
    ensures var w := Encode(line);
      && w / 1048576 == line.imm % 4096 && Rs1(w) == line.rs1 && Rd(w) == line.rd
      && Funct3(w) == Funct3Of(line.insn) && Opcode(w) == OpcodeOf(TypeOf(line.insn))
  {
    hide Encode;
    ImmWord(line);
    Apart(Encode(line), line.imm / 32 % 128, line.imm % 32, line.rs1, Funct3Of(line.insn), line.rd,
          OpcodeOf(TypeOf(line.insn)));
  }

  lemma StoreWord(line: Line)
    requires line.InsnLine? && ValidRegs(line) && TypeOf(line.insn) == TYPE_STORE
    ensures Encode(line) ==
            ((((line.imm / 32 % 128 * 32 + line.rs2) * 32 + line.rs1) * 8 + Funct3Of(line.insn)) * 32
              + line.imm % 32) * 128
            + 0x23
  {
    hide Pack;
    PackR(Layout(line));
    Small(line.imm % 32, 32);
  }

  lemma EncodedStore(line: Line)
    requires line.InsnLine? && ValidRegs(line) && TypeOf(line.insn) == TYPE_STORE
    ensures var w := Encode(line);
      && Funct7(w) * 32 + Rd(w) == line.imm % 4096 && Rs1(w) == line.rs1 && Rs2(w) == line.rs2
      && Funct3(w) == Funct3Of(line.insn) && Opcode(w) == 0x23
  {
    hide Encode;
    StoreWord(line);
    SplitImm(line.imm);
    Apart(Encode(line), line.imm / 32 % 128, line.rs2, line.rs1, Funct3Of(line.insn), line.imm % 32, 0x23);
  }

  lemma EncodedUpper(line: Line)
    requires line.InsnLine? && ValidRegs(line) && TypeOf(line.insn) in {TYPE_LUI, TYPE_AUIPC}
    ensures var w := Encode(line);
      && w / 4096 == line.imm / 4096 % 1048576 && Rd(w) == line.rd && Opcode(w) == OpcodeOf(TypeOf(line.insn))
  {
    hide Pack;
    PackU(Layout(line));
    var w, u, op := Encode(line), line.imm / 4096 % 1048576, OpcodeOf(TypeOf(line.insn));
    ModUnique(w, 4096, u, line.rd * 128 + op);
    ModUnique(w, 128, u * 32 + line.rd, op);
    ModUnique(u * 32 + line.rd, 32, u, line.rd);
  }

  // ----- what a line means -----

  function ArithOf(m: Mnemonic): Option<Isa.Arith> {
    match m
    case ADD | ADDI => Some(Isa.Add)
    case SUB => Some(Isa.Sub)
    case AND | ANDI => Some(Isa.And)
    case OR | ORI => Some(Isa.Or)
    case XOR | XORI => Some(Isa.Xor)
    case SLL | SLLI => Some(Isa.Sll)
    case SRL => Some(Isa.Srl)
    case _ => None
  }

  /** The mnemonics the processor runs as the manual says. */
  predicate Supported(m: Mnemonic) {
    || ArithOf(m).Some?
    || m in {NOP, LUI, LBU, LHU, LW, SB, SH, SW}
  }

  function AccessSize(m: Mnemonic): nat {
    if m in {LBU, SB} then 1 else if m in {LHU, SH} then 2 else 4
  }

  /** The instruction a supported line denotes. */
  function Meaning(line: Line): Isa.Instr
    requires line.InsnLine? && ValidRegs(line) && Supported(line.insn)
  {
    var m := line.insn;
    match TypeOf(m)
    case TYPE_REGREG => Isa.RegReg(ArithOf(m).value, line.rd, line.rs1, line.rs2)
    case TYPE_REGIMM => Isa.RegImm(ArithOf(m).value, line.rd, line.rs1, line.imm)
    case TYPE_LOAD => Isa.Load(AccessSize(m), line.rd, line.rs1, line.imm)
    case TYPE_STORE => Isa.Store(AccessSize(m), line.rs1, line.rs2, line.imm)
    case TYPE_LUI => Isa.Lui(line.rd, line.imm / 4096 % 1048576)
    case _ => Isa.Nop
  }

  /** The immediate fits the field it is printed in. */
  predicate Fits(line: Line)
    requires line.InsnLine?
  {
    match TypeOf(line.insn)
    case TYPE_REGIMM => if IsShift(line.insn) then 0 <= line.imm < 32 else -2048 <= line.imm < 2048
    case TYPE_LOAD | TYPE_STORE | TYPE_JALR => -2048 <= line.imm < 2048
    case _ => true
  }

  lemma SignExtendBack(imm: int)
    ensures Isa.SignExtend12(imm % 4096) == imm <==> -2048 <= imm < 2048
  {
  }

  predicate DecodesBack(line: Line)
    requires line.InsnLine? && ValidRegs(line) && Supported(line.insn)
  {
    Isa.Decode(Encode(line)) == Some(Meaning(line))
  }

  lemma DecodeRegs(line: Line)
    requires line.InsnLine? && ValidRegs(line) && Supported(line.insn)
    requires TypeOf(line.insn) == TYPE_REGREG || IsShift(line.insn)
    ensures DecodesBack(line) <==> Fits(line)
  {
    hide Encode, Isa.SignExtend12;
    EncodedRegs(line);
  }

  lemma DecodeImm(line: Line)
    requires line.InsnLine? && ValidRegs(line) && Supported(line.insn) && !IsShift(line.insn)
    requires TypeOf(line.insn) in {TYPE_REGIMM, TYPE_LOAD}
    ensures DecodesBack(line) <==> Fits(line)
  {
    hide Encode, Isa.SignExtend12;
    SignExtendBack(line.imm);
    EncodedImm(line);
  }

  lemma DecodeStore(line: Line)
    requires line.InsnLine? && ValidRegs(line) && Supported(line.insn) && TypeOf(line.insn) == TYPE_STORE
    ensures DecodesBack(line) <==> Fits(line)
  {
    hide Encode, Isa.SignExtend12;
    SignExtendBack(line.imm);
    EncodedStore(line);
  }

  /** A supported line is emitted as a word that means the line, exactly when its immediate fits. */
  lemma DecodeEncode(line: Line)
    requires line.InsnLine? && ValidRegs(line) && Supported(line.insn)
    ensures Isa.Decode(Encode(line)) == Some(Meaning(line)) <==> Fits(line)
  {
    hide Encode;
    match TypeOf(line.insn) {
      case TYPE_NOP => EncodedNop(line);
      case TYPE_REGREG => DecodeRegs(line);
      case TYPE_REGIMM => if IsShift(line.insn) { DecodeRegs(line); } else { DecodeImm(line); }
      case TYPE_LOAD => DecodeImm(line);
      case TYPE_STORE => DecodeStore(line);
      case TYPE_LUI => EncodedUpper(line);
    }
  }

  lemma EncodedNop(line: Line)
    requires line.InsnLine? && line.insn == NOP
    ensures Encode(line) == 0
  {
    Unfold1(Layout(line));
  }

  // ----- the processor's immediate generator -----

  /** What imm_gen makes of a line's word. */
  function HardwareImm(line: Line): Word
    requires line.InsnLine?
  {
    var w := Encode(line);
    ImmGen.Immediate(ImmSelOf(w), w)
  }

  lemma WrapExtend(imm: int)
    requires FitsCInt(imm)
    ensures Wrap(Isa.SignExtend12(imm % 4096)) == Wrap(imm) <==> -2048 <= imm < 2048
  {
  }

  /** Twelve-bit immediates, JALR offsets included, reach the ALU exactly when they fit. */
  lemma ImmediateExact(line: Line)
    requires line.InsnLine? && ValidRegs(line) && !IsShift(line.insn) && FitsCInt(line.imm)
    requires TypeOf(line.insn) in {TYPE_REGIMM, TYPE_LOAD, TYPE_STORE, TYPE_JALR}
    ensures HardwareImm(line) == Wrap(line.imm) <==> -2048 <= line.imm < 2048
  {
    hide Encode;
    var w := Encode(line);
    WrapExtend(line.imm);
    Stages.TopBits(w);
    if TypeOf(line.insn) == TYPE_STORE {
      EncodedStore(line);
      Stages.SignFill(w, line.imm % 4096);
    } else {
      EncodedImm(line);
      Stages.SignFill(w, line.imm % 4096);
    }
  }

  /** LUI and AUIPC: the source constant with its low twelve bits cleared. */
  lemma UpperRoundTrip(line: Line)
    requires line.InsnLine? && ValidRegs(line) && TypeOf(line.insn) in {TYPE_LUI, TYPE_AUIPC}
    ensures Wrap(HardwareImm(line) * 4096) == Wrap(line.imm - line.imm % 4096)
  {
    hide Encode;
    EncodedUpper(line);
    var u := line.imm / 4096;
    ModUnique(line.imm - line.imm % 4096, 0x1_0000_0000, u / 1048576, u % 1048576 * 4096);
  }

  /** Jump offsets survive exactly when they are even and in 0 .. 2^19 - 1. */
  lemma JalExact(line: Line)
    requires line.InsnLine? && ValidRegs(line) && line.insn == JAL && FitsCInt(line.imm)
    ensures HardwareImm(line) == Wrap(line.imm) <==> 0 <= line.imm < 0x8_0000 && line.imm % 2 == 0
  {
    hide Encode;
    EncodedJal(line);
    JalBits(line.imm);
  }

  lemma EncodedJal(line: Line)
    requires line.InsnLine? && ValidRegs(line) && line.insn == JAL
    ensures HardwareImm(line) == line.imm / 4096 % 128 * 4096 + line.imm / 2048 % 2 * 2048 + line.imm / 2 % 1024 * 2
  {
    hide Encode;
    var imm := line.imm;
    JalWord(line);
    JalFields(Encode(line), imm / 2 % 1024, imm / 2048 % 2, imm / 4096 % 128, line.rd);
  }

  /** The manual's reading of a jump's word. */
  lemma EncodedJump(line: Line)
    requires line.InsnLine? && ValidRegs(line) && line.insn == JAL
    ensures var w := Encode(line); Opcode(w) == 0x6f && Rd(w) == line.rd
    ensures Isa.ImmJ(Encode(line)) ==
      line.imm / 4096 % 128 * 4096 + line.imm / 2048 % 2 * 2048 + line.imm / 2 % 1024 * 2
  {
    hide Encode;
    var imm := line.imm;
    JalWord(line);
    JalFields(Encode(line), imm / 2 % 1024, imm / 2048 % 2, imm / 4096 % 128, line.rd);
    ModUnique(Encode(line), 128, Encode(line) / 128, 0x6f);
    JalLink(Encode(line), (imm / 2 % 1024 * 2 + imm / 2048 % 2) * 256 + imm / 4096 % 128, line.rd);
  }

  lemma JalLink(w: Word, x: nat, rd: RegNo)
    requires w == (x * 32 + rd) * 128 + 0x6f
    ensures Rd(w) == rd
  {
    ModUnique(w, 128, x * 32 + rd, 0x6f);
    ModUnique(x * 32 + rd, 32, x, rd);
  }

  lemma JalWord(line: Line)
    requires line.InsnLine? && ValidRegs(line) && line.insn == JAL
    ensures var imm := line.imm;
      Encode(line) ==
      (((imm / 2 % 1024 * 2 + imm / 2048 % 2) * 256 + imm / 4096 % 128) * 32 + line.rd) * 128 + 0x6f
  {
    hide Pack;
    PackJ(Layout(line));
    Small(line.imm / 2 % 1024, 1024);
    Small(line.imm / 4096 % 128, 256);
  }

  lemma Small(x: int, m: int)
    requires 0 <= x < m
    ensures x % m == x
  {
  }

  lemma JalFields(w: Word, a: int, b: int, c: int, rd: RegNo)
    requires 0 <= a < 1024 && 0 <= b < 2 && 0 <= c < 256
    requires w == (((a * 2 + b) * 256 + c) * 32 + rd) * 128 + 0x6f
    ensures Opcode(w) == 0x6f && w < 0x8000_0000
    ensures w / 4096 % 256 == c && w / 1048576 % 2 == b && w / 2097152 % 1024 == a
  {
    var x := (a * 2 + b) * 256 + c;
    ModUnique(w, 128, x * 32 + rd, 0x6f);
    ModUnique(w, 4096, x, rd * 128 + 0x6f);
    ModUnique(x, 256, a * 2 + b, c);
    ModUnique(w, 1048576, a * 2 + b, (c * 32 + rd) * 128 + 0x6f);
    ModUnique(a * 2 + b, 2, a, b);
    ModUnique(w, 2097152, a, ((b * 256 + c) * 32 + rd) * 128 + 0x6f);
  }

  lemma JalBits(imm: int)
    requires FitsCInt(imm)
    ensures imm / 4096 % 128 * 4096 + imm / 2048 % 2 * 2048 + imm / 2 % 1024 * 2 == Wrap(imm) <==>
            0 <= imm < 0x8_0000 && imm % 2 == 0
  {
    var q, c, b, a, r := imm / 0x8_0000, imm / 4096 % 128, imm / 2048 % 2, imm / 2 % 1024, imm % 2;
    hide Words.Wrap;
    WrapSigned(imm);
    DivDiv(imm, 4096, 128);
    DivDiv(imm, 2048, 2);
    DivDiv(imm, 2, 1024);
    JalSum(imm, q, c, b, a, r);
  }

  lemma WrapSigned(imm: int)
    requires FitsCInt(imm)
    ensures Wrap(imm) == if imm < 0 then imm + 0x1_0000_0000 else imm
  {
  }

  lemma JalSum(imm: int, q: int, c: int, b: int, a: int, r: int)
    requires imm == 0x8_0000 * q + 4096 * c + 2048 * b + 2 * a + r && FitsCInt(imm)
    requires 0 <= c < 128 && 0 <= b < 2 && 0 <= a < 1024 && 0 <= r < 2
    ensures c * 4096 + b * 2048 + a * 2 == (if imm < 0 then imm + 0x1_0000_0000 else imm) <==> q == 0 && r == 0
  {
  }

  /** Branch offsets survive exactly when they are non-negative multiples of 32 below 4096, or odd
      negative numbers one above such a multiple: of the multiples of 4 that labels give, only the
      former. */
  lemma BranchExact(line: Line)
    requires line.InsnLine? && ValidRegs(line) && TypeOf(line.insn) == TYPE_BRANCH && FitsCInt(line.imm)
    ensures HardwareImm(line) == Wrap(line.imm) <==>
            -4096 <= line.imm < 4096 && line.imm % 32 == (if line.imm < 0 then 1 else 0)
  {
    hide Encode;
    EncodedBranch(line);
    BranchBits(line.imm);
  }

  /** The low nibble of `imm & 0x1E`. */
  function Mangled(x: int): int {
    x / 2 * 2 % 16
  }

  function BranchImm(imm: int): Word {
    var s := imm / 4096 % 2;
    (if s == 1 then 0x1_0000_0000 - 8192 else 0)
    + (s * 4096 + imm / 2048 % 2 * 2048 + imm / 32 % 64 * 32 + Mangled(imm % 32) * 2 + s)
  }

  lemma EncodedBranch(line: Line)
    requires line.InsnLine? && ValidRegs(line) && TypeOf(line.insn) == TYPE_BRANCH
    ensures HardwareImm(line) == BranchImm(line.imm)
  {
    hide Encode;
    var w, imm := Encode(line), line.imm;
    var s, h, l, b := imm / 4096 % 2, imm / 32 % 64, Mangled(imm % 32), imm / 2048 % 2;
    BranchWord(line, s, h, l, b);
    BranchApart(w, s, h, line.rs2, line.rs1, Funct3Of(line.insn), l, b);
    BranchFields(w, s, h, l, b);
  }

  lemma EncodedBranchRegs(line: Line)
    requires line.InsnLine? && ValidRegs(line) && TypeOf(line.insn) == TYPE_BRANCH
    ensures var w := Encode(line);
      Opcode(w) == 0x63 && Funct3(w) == Funct3Of(line.insn) && Rs1(w) == line.rs1 && Rs2(w) == line.rs2
  {
    hide Encode;
    var s, h, l, b := line.imm / 4096 % 2, line.imm / 32 % 64, Mangled(line.imm % 32), line.imm / 2048 % 2;
    BranchWord(line, s, h, l, b);
    Apart(Encode(line), s * 64 + h, line.rs2, line.rs1, Funct3Of(line.insn), l * 2 + b, 0x63);
  }

  /** The manual's reading of a branch's word. */
  lemma EncodedOffset(line: Line)
    requires line.InsnLine? && ValidRegs(line) && TypeOf(line.insn) == TYPE_BRANCH
    ensures Isa.ImmB(Encode(line)) ==
      line.imm / 2048 % 2 * 2048 + line.imm / 32 % 64 * 32 + Mangled(line.imm % 32) * 2 - line.imm / 4096 % 2 * 4096
  {
    hide Encode;
    var s, h, l, b := line.imm / 4096 % 2, line.imm / 32 % 64, Mangled(line.imm % 32), line.imm / 2048 % 2;
    BranchWord(line, s, h, l, b);
    BranchApart(Encode(line), s, h, line.rs2, line.rs1, Funct3Of(line.insn), l, b);
    BranchFields(Encode(line), s, h, l, b);
  }

  lemma BranchWord(line: Line, s: int, h: int, l: int, b: int)
    requires line.InsnLine? && ValidRegs(line) && TypeOf(line.insn) == TYPE_BRANCH
    requires s == line.imm / 4096 % 2 && h == line.imm / 32 % 64
    requires l == Mangled(line.imm % 32) && b == line.imm / 2048 % 2
    ensures Encode(line) ==
            ((((((s * 64 + h) * 32 + line.rs2) * 32 + line.rs1) * 8 + Funct3Of(line.insn)) * 16 + l) * 2
              + b) * 128 + 0x63
  {
    hide Pack;
    PackB(Layout(line));
    Small(h, 64);
  }

  lemma BranchApart(w: Word, s: int, h: int, rs2: RegNo, rs1: RegNo, f3: int, l: int, b: int)
    requires 0 <= s < 2 && 0 <= h < 64 && 0 <= f3 < 8 && 0 <= l < 16 && 0 <= b < 2
    requires w == ((((((s * 64 + h) * 32 + rs2) * 32 + rs1) * 8 + f3) * 16 + l) * 2 + b) * 128 + 0x63
    ensures Funct7(w) == s * 64 + h && Rd(w) == l * 2 + b && Opcode(w) == 0x63
  {
    Apart(w, s * 64 + h, rs2, rs1, f3, l * 2 + b, 0x63);
  }

  lemma BranchFields(w: Word, s: int, h: int, l: int, b: int)
    requires 0 <= s < 2 && 0 <= h < 64 && 0 <= l < 16 && 0 <= b < 2
    requires Funct7(w) == s * 64 + h && Rd(w) == l * 2 + b
    ensures ImmGen.Sign(w) == s && w / 33554432 % 64 == h && w / 256 % 16 == l && w / 128 % 2 == b
  {
    var x := w / 128;
    assert x % 32 == l * 2 + b;
    ModUnique(x, 2, x / 32 * 16 + l, b);
    assert w / 256 == x / 2;
    ModUnique(x / 2, 16, x / 32, l);
    ModUnique(w / 33554432, 64, s, h);
    assert w / 0x8000_0000 == w / 33554432 / 64;
  }

  lemma BranchBits(imm: int)
    requires FitsCInt(imm)
    ensures BranchImm(imm) == Wrap(imm) <==> -4096 <= imm < 4096 && imm % 32 == (if imm < 0 then 1 else 0)
  {
    var q, s, b, h, x := imm / 8192, imm / 4096 % 2, imm / 2048 % 2, imm / 32 % 64, imm % 32;
    DivDiv(imm, 4096, 2);
    DivDiv(imm, 2048, 2);
    DivDiv(imm, 32, 64);
    hide Mangled, Words.Wrap;
    WrapSigned(imm);
    LowBits(x);
    BranchSum(imm, q, s, b, h, x, Mangled(x) * 2);
  }

  lemma DivDiv(n: int, a: int, b: int)
    requires (a, b) in {(4096, 2), (4096, 128), (2048, 2), (32, 64), (2, 1024)}
    ensures n / a == b * (n / (a * b)) + n / a % b
  {
    var q := n / (a * b);
    assert n == (a * b) * q + n % (a * b);
    assert n / a / b == q;
  }

  /** The mangled low bits are the original ones only for 0, and for 1 with the stray bit 0. */
  lemma LowBits(x: int)
    requires 0 <= x < 32
    ensures var y := Mangled(x) * 2; 0 <= y < 31 && (y == x <==> x == 0) && (y + 1 == x <==> x == 1)
  {
    if x >= 16 {
      assert x / 2 * 2 % 16 == x / 2 * 2 - 16;
    } else {
      assert x / 2 * 2 % 16 == x / 2 * 2;
    }
  }

  lemma BranchSum(imm: int, q: int, s: int, b: int, h: int, x: int, y: int)
    requires imm == 8192 * q + 4096 * s + 2048 * b + 32 * h + x && FitsCInt(imm)
    requires 0 <= s < 2 && 0 <= b < 2 && 0 <= h < 64 && 0 <= x < 32 && 0 <= y < 31
    requires (y == x <==> x == 0) && (y + 1 == x <==> x == 1)
    ensures (if s == 1 then 0x1_0000_0000 - 8192 else 0) + s * 4096 + b * 2048 + h * 32 + y + s
            == (if imm < 0 then imm + 0x1_0000_0000 else imm)
            <==> -4096 <= imm < 4096 && x == (if imm < 0 then 1 else 0)
  {
  }
}
