/** Assembly lines, their binary layout and the writer (compilateur/src/asm_line.c). */
module AsmLine {
  import opened Words
  import opened Binary

  datatype Mnemonic =
    | NOP
    | ADD | AND | SLL | SRL | OR | XOR | SLTU | SLT | SRA | SUB
    | ADDI | ANDI | SLLI | SRLI | ORI | XORI | SLTIU | SLTI | SRAI
    | BEQ | BNE | BGEU | BGE | BLTU | BLT
    | LUI | AUIPC
    | LBU | LHU | LB | LH | LW
    | SB | SW | SH
    | JAL | JALR
    | UNKNOWN

  datatype InsnType =
    | TYPE_NOP | TYPE_REGREG | TYPE_REGIMM | TYPE_LOAD | TYPE_STORE
    | TYPE_BRANCH | TYPE_JAL | TYPE_JALR | TYPE_LUI | TYPE_AUIPC

  /** insnset2insn. The code of an unknown name is -1 in an unsigned enumeration, so it passes
      every upper bound and ends in the last case. */
  function TypeOf(m: Mnemonic): InsnType {
    match m
    case NOP => TYPE_NOP
    case ADD | AND | SLL | SRL | OR | XOR | SLTU | SLT | SRA | SUB => TYPE_REGREG
    case ADDI | ANDI | SLLI | SRLI | ORI | XORI | SLTIU | SLTI | SRAI => TYPE_REGIMM
    case BEQ | BNE | BGEU | BGE | BLTU | BLT => TYPE_BRANCH
    case LUI => TYPE_LUI
    case AUIPC => TYPE_AUIPC
    case LBU | LHU | LB | LH | LW => TYPE_LOAD
    case SB | SW | SH => TYPE_STORE
    case JAL => TYPE_JAL
    case JALR | UNKNOWN => TYPE_JALR
  }

  datatype Line =
    | InsnLine(insn: Mnemonic, rd: int, rs1: int, rs2: int, imm: int, target: string, addr: int)
    | LabelLine(name: string, addr: int)

  // ----- opcode and function codes (asm_line.h) -----

  function OpcodeOf(t: InsnType): int {
    match t
    case TYPE_NOP => 0x00
    case TYPE_REGREG => 0x33
    case TYPE_REGIMM => 0x13
    case TYPE_LOAD => 0x03
    case TYPE_STORE => 0x23
    case TYPE_BRANCH => 0x63
    case TYPE_JAL => 0x6f
    case TYPE_JALR => 0x67
    case TYPE_LUI => 0x37
    case TYPE_AUIPC => 0x17
  }

  function Funct3Of(m: Mnemonic): int {
    match m
    case ADD | SUB | ADDI | BEQ | LB | SB => 0
    case SLL | SLLI | BNE | LH | SH => 1
    case SLT | SLTI | LW | SW => 2
    case SLTU | SLTIU => 3
    case XOR | XORI | BLT | LBU => 4
    case SRL | SRA | SRLI | SRAI | BGE | LHU => 5
    case OR | ORI | BLTU => 6
    case AND | ANDI | BGEU => 7
    case _ => 0
  }

  function Funct7Of(m: Mnemonic): int {
    if m in {SUB, SRA, SRAI} then 32 else 0
  }

  predicate IsShift(m: Mnemonic) {
    m in {SLLI, SRLI, SRAI}
  }

  // ----- layout -----

  /** The fields of an instruction line from bit 31 down, as the writer prints them. */
  function Layout(line: Line): seq<Field>
    requires line.InsnLine?
  {
    var m, rd, rs1, rs2, imm := line.insn, Field(line.rd, 5), Field(line.rs1, 5), Field(line.rs2, 5), line.imm;
    var op, f3 := Field(OpcodeOf(TypeOf(m)), 7), Field(Funct3Of(m), 3);
    match TypeOf(m)
    case TYPE_NOP => [Field(0, 32)]
    case TYPE_REGREG => [Field(Funct7Of(m), 7), rs2, rs1, f3, rd, op]
    case TYPE_REGIMM =>
      if IsShift(m) then [Field(Funct7Of(m), 7), Field(imm, 5), rs1, f3, rd, op]
      else [Field(imm, 12), rs1, f3, rd, op]
    case TYPE_LOAD => [Field(imm, 12), rs1, f3, rd, op]
    case TYPE_JALR => [Field(imm, 12), rs1, f3, rd, op]
    case TYPE_STORE => [Field(imm / 32, 7), rs2, rs1, f3, Field(imm % 32, 5), op]
    case TYPE_BRANCH =>
      // The four bits 11-8 are the low nibble of `imm & 0x1E`, not imm[4:1].
      [Field(imm / 4096, 1), Field(imm / 32 % 64, 6), rs2, rs1, f3, Field(imm % 32 / 2 * 2, 4),
        Field(imm / 2048, 1), op]
    case TYPE_JAL =>
      // `(imm & 0x40000) >> 20` is always 0, and 0x7F800 keeps only imm[18:12].
      [Field(0, 1), Field(imm / 2 % 1024, 10), Field(imm / 2048, 1), Field(imm / 4096 % 128, 8), rd, op]
    case TYPE_LUI => [Field(imm / 4096, 20), rd, op]
    case TYPE_AUIPC => [Field(imm / 4096, 20), rd, op]
  }

  predicate ValidRegs(line: Line) {
    line.InsnLine? ==> 0 <= line.rd < 32 && 0 <= line.rs1 < 32 && 0 <= line.rs2 < 32
  }

  lemma Unsnoc(fs: seq<Field>, n: nat)
    requires |fs| > n
    ensures Digits(fs[..n + 1]) == Digits(fs[..n]) + Print(fs[n])
    ensures Width(fs[..n + 1]) == Width(fs[..n]) + fs[n].width
    ensures Pack(fs[..n + 1]) == Append(Pack(fs[..n]), fs[n])
  {
    hide Print;
    assert fs[..n + 1][..n] == fs[..n];
  }

  lemma Unfold1(fs: seq<Field>)
    requires |fs| == 1
    ensures Digits(fs) == Print(fs[0])
    ensures Width(fs) == fs[0].width
    ensures Pack(fs) == Append(0, fs[0])
  {
    assert fs[..0] == [];
  }

  lemma Unfold3(fs: seq<Field>)
    requires |fs| == 3
    ensures Digits(fs) == Print(fs[0]) + Print(fs[1]) + Print(fs[2])
    ensures Width(fs) == fs[0].width + fs[1].width + fs[2].width
    ensures Pack(fs) == Append(Append(Append(0, fs[0]), fs[1]), fs[2])
  {
    hide Digits, Width, Pack, Append, Print;
    Unfold1(fs[..1]);
    Unsnoc(fs, 1);
    Unsnoc(fs, 2);
    assert fs[..3] == fs;
  }

  lemma Unfold5(fs: seq<Field>)
    requires |fs| == 5
    ensures Digits(fs) == Print(fs[0]) + Print(fs[1]) + Print(fs[2]) + Print(fs[3]) + Print(fs[4])
    ensures Width(fs) == fs[0].width + fs[1].width + fs[2].width + fs[3].width + fs[4].width
    ensures Pack(fs) == Append(Append(Append(Append(Append(0, fs[0]), fs[1]), fs[2]), fs[3]), fs[4])
  {
    hide Digits, Width, Pack, Append, Print;
    Unfold3(fs[..3]);
    Unsnoc(fs, 3);
    Unsnoc(fs, 4);
    assert fs[..5] == fs;
  }

  lemma Unfold6(fs: seq<Field>)
    requires |fs| == 6
    ensures Digits(fs) == Print(fs[0]) + Print(fs[1]) + Print(fs[2]) + Print(fs[3]) + Print(fs[4]) + Print(fs[5])
    ensures Width(fs) == fs[0].width + fs[1].width + fs[2].width + fs[3].width + fs[4].width + fs[5].width
    ensures Pack(fs) == Append(Append(Append(Append(Append(Append(0, fs[0]), fs[1]), fs[2]), fs[3]), fs[4]), fs[5])
  {
    hide Digits, Width, Pack, Append, Print;
    Unfold5(fs[..5]);
    Unsnoc(fs, 5);
    assert fs[..6] == fs;
  }

  lemma Unfold8(fs: seq<Field>)
    requires |fs| == 8
    ensures Digits(fs) == Print(fs[0]) + Print(fs[1]) + Print(fs[2]) + Print(fs[3]) + Print(fs[4])
      + Print(fs[5]) + Print(fs[6]) + Print(fs[7])
    ensures Width(fs) == fs[0].width + fs[1].width + fs[2].width + fs[3].width + fs[4].width + fs[5].width
      + fs[6].width + fs[7].width
    ensures Pack(fs) ==
      Append(Append(
        Append(Append(Append(Append(Append(Append(0, fs[0]), fs[1]), fs[2]), fs[3]), fs[4]), fs[5]), fs[6]), fs[7])
  {
    hide Digits, Width, Pack, Append, Print;
    Unfold6(fs[..6]);
    Unsnoc(fs, 6);
    Unsnoc(fs, 7);
    assert fs[..8] == fs;
  }

  lemma Unfold(fs: seq<Field>)
    requires |fs| in {1, 3, 5, 6, 8}
    ensures |fs| == 1 ==> Width(fs) == fs[0].width
    ensures |fs| == 3 ==> Width(fs) == fs[0].width + fs[1].width + fs[2].width
    ensures |fs| == 5 ==> Width(fs) == fs[0].width + fs[1].width + fs[2].width + fs[3].width + fs[4].width
    ensures |fs| == 6 ==>
      Width(fs) == fs[0].width + fs[1].width + fs[2].width + fs[3].width + fs[4].width + fs[5].width
    ensures |fs| == 8 ==>
      Width(fs) == fs[0].width + fs[1].width + fs[2].width + fs[3].width + fs[4].width + fs[5].width + fs[6].width
                   + fs[7].width
  {
    hide *;
    match |fs| {
      case 1 => Unfold1(fs);
      case 3 => Unfold3(fs);
      case 5 => Unfold5(fs);
      case 6 => Unfold6(fs);
      case _ => Unfold8(fs);
    }
  }

  lemma LayoutWidth(line: Line)
    requires line.InsnLine?
    ensures Width(Layout(line)) == 32
  {
    hide Width;
    Unfold(Layout(line));
  }

  /** The instruction word. */
  function Encode(line: Line): Word
    requires line.InsnLine?
  {
    LayoutWidth(line);
    PackBound(Layout(line));
    Pow2Of32();
    Pack(Layout(line))
  }

  /** How many instruction words the lines produce. */
  function Count(lines: seq<Line>): nat {
    if lines == [] then 0 else Count(lines[..|lines| - 1]) + (if lines[|lines| - 1].InsnLine? then 1 else 0)
  }

  lemma {:induction false} CountAppend(a: seq<Line>, b: seq<Line>)
    ensures Count(a + b) == Count(a) + Count(b)
  {
    if b == [] {
      assert a + b == a;
    } else {
      assert (a + b)[..|a + b| - 1] == a + b[..|b| - 1];
      CountAppend(a, b[..|b| - 1]);
    }
  }

  lemma {:induction false} CountAll(lines: seq<Line>)
    requires forall k :: 0 <= k < |lines| ==> lines[k].InsnLine?
    ensures Count(lines) == |lines|
  {
    if lines != [] {
      CountAll(lines[..|lines| - 1]);
    }
  }

  /** The words of the instruction lines, in order; labels produce nothing. */
  function Image(lines: seq<Line>): (ws: seq<Word>)
    ensures |ws| == Count(lines)
  {
    if lines == [] then []
    else Image(lines[..|lines| - 1]) + (if lines[|lines| - 1].InsnLine? then [Encode(lines[|lines| - 1])] else [])
  }

  // ----- the writer -----

  /** One bit printed with %d. */
  method PrintBit(n: int) returns (out: string)
    ensures out == Bits(n, 1)
  {
    out := PrintBinary(n % 2, 1);
    assert Bits(n, 1) == Bits(n % 2, 1) by {
      assert Bits(n / 2, 0) == Bits(n % 2 / 2, 0) == "";
    }
  }

  method WriteRegReg(line: Line) returns (out: string)
    requires line.InsnLine? && TypeOf(line.insn) == TYPE_REGREG
    ensures out == Digits(Layout(line))
  {
    hide Digits, Bits;
    var f7 := PrintBinary(Funct7Of(line.insn), 7);
    var rs2 := PrintBinary(line.rs2, 5);
    var rs1 := PrintBinary(line.rs1, 5);
    var f3 := PrintBinary(Funct3Of(line.insn), 3);
    var rd := PrintBinary(line.rd, 5);
    var op := PrintBinary(0x33, 7);
    out := f7 + rs2 + rs1 + f3 + rd + op;
    ghost var l := Layout(line);
    Unfold6(l);
  }

  /** Register-immediate, load and JALR lines; shifts print five bits of the immediate. */
  method WriteImm(line: Line) returns (out: string)
    requires line.InsnLine? && TypeOf(line.insn) in {TYPE_REGIMM, TYPE_LOAD, TYPE_JALR}
    ensures out == Digits(Layout(line))
  {
    hide Digits, Bits;
    var imm;
    if IsShift(line.insn) {
      var f7 := PrintBinary(Funct7Of(line.insn), 7);
      var shamt := PrintBinary(line.imm, 5);
      imm := f7 + shamt;
    } else {
      imm := PrintBinary(line.imm, 12);
    }
    var rs1 := PrintBinary(line.rs1, 5);
    var f3 := PrintBinary(Funct3Of(line.insn), 3);
    var rd := PrintBinary(line.rd, 5);
    var op := PrintBinary(OpcodeOf(TypeOf(line.insn)), 7);
    out := imm + rs1 + f3 + rd + op;
    ghost var l := Layout(line);
    if IsShift(line.insn) {
      Unfold6(l);
    } else {
      Unfold5(l);
    }
  }

  method WriteStore(line: Line) returns (out: string)
    requires line.InsnLine? && TypeOf(line.insn) == TYPE_STORE
    ensures out == Digits(Layout(line))
  {
    hide Digits, Bits;
    var high := PrintBinary(line.imm / 32, 7);
    var rs2 := PrintBinary(line.rs2, 5);
    var rs1 := PrintBinary(line.rs1, 5);
    var f3 := PrintBinary(Funct3Of(line.insn), 3);
    var low := PrintBinary(line.imm % 32, 5);
    var op := PrintBinary(0x23, 7);
    out := high + rs2 + rs1 + f3 + low + op;
    ghost var l := Layout(line);
    Unfold6(l);
  }

  method WriteBranch(line: Line) returns (out: string)
    requires line.InsnLine? && TypeOf(line.insn) == TYPE_BRANCH
    ensures out == Digits(Layout(line))
  {
    hide Digits, Bits;
    var bit31 := PrintBit(line.imm / 4096);
    var high := PrintBinary(line.imm / 32 % 64, 6);
    var rs2 := PrintBinary(line.rs2, 5);
    var rs1 := PrintBinary(line.rs1, 5);
    var f3 := PrintBinary(Funct3Of(line.insn), 3);
    var low := PrintBinary(line.imm % 32 / 2 * 2, 4);
    var bit7 := PrintBit(line.imm / 2048);
    var op := PrintBinary(0x63, 7);
    out := bit31 + high + rs2 + rs1 + f3 + low + bit7 + op;
    ghost var l := Layout(line);
    Unfold8(l);
  }

  method WriteJal(line: Line) returns (out: string)
    requires line.InsnLine? && TypeOf(line.insn) == TYPE_JAL
    ensures out == Digits(Layout(line))
  {
    hide Digits, Bits;
    var bit31 := PrintBit(0);
    var mid := PrintBinary(line.imm / 2 % 1024, 10);
    var bit20 := PrintBit(line.imm / 2048);
    var high := PrintBinary(line.imm / 4096 % 128, 8);
    var rd := PrintBinary(line.rd, 5);
    var op := PrintBinary(0x6f, 7);
    out := bit31 + mid + bit20 + high + rd + op;
    ghost var l := Layout(line);
    Unfold6(l);
  }

  method WriteUpper(line: Line) returns (out: string)
    requires line.InsnLine? && TypeOf(line.insn) in {TYPE_LUI, TYPE_AUIPC}
    ensures out == Digits(Layout(line))
  {
    hide Digits, Bits;
    var high := PrintBinary(line.imm / 4096, 20);
    var rd := PrintBinary(line.rd, 5);
    var op := PrintBinary(OpcodeOf(TypeOf(line.insn)), 7);
    out := high + rd + op;
    ghost var l := Layout(line);
    Unfold3(l);
  }

  method WriteInsn(line: Line) returns (out: string)
    requires line.InsnLine?
    ensures out == Digits(Layout(line))
  {
    hide Digits, Bits;
    match TypeOf(line.insn) {
      case TYPE_NOP => out := PrintBinary(0, 32); Unfold1([Field(0, 32)]);
      case TYPE_REGREG => out := WriteRegReg(line);
      case TYPE_REGIMM => out := WriteImm(line);
      case TYPE_LOAD => out := WriteImm(line);
      case TYPE_JALR => out := WriteImm(line);
      case TYPE_STORE => out := WriteStore(line);
      case TYPE_BRANCH => out := WriteBranch(line);
      case TYPE_JAL => out := WriteJal(line);
      case TYPE_LUI => out := WriteUpper(line);
      case TYPE_AUIPC => out := WriteUpper(line);
    }
  }

  /** Bits of equal low parts are equal. */
  lemma {:induction false} DigitsUnique(s: string, n: Word, size: nat)
    requires IsBinary(s) && |s| == size && Value(s) == n
    ensures s == Bits(n, size)
    decreases size
  {
    if size > 0 {
      var t := s[..size - 1];
      assert n / 2 == Value(t) && n % 2 == (if s[size - 1] == '1' then 1 else 0);
      DigitsUnique(t, n / 2, size - 1);
      assert s == t + [s[size - 1]];
    }
  }

  lemma WordText(line: Line)
    requires line.InsnLine?
    ensures Digits(Layout(line)) == Bits(Encode(line), 32)
  {
    hide Digits, Bits, Layout, Pack;
    ValueOfDigits(Layout(line));
    LayoutWidth(line);
    DigitsUnique(Digits(Layout(line)), Encode(line), 32);
  }

  /** asm_line_write: the file is the memory image, one 32-digit line per instruction. */
  method Write(lines: seq<Line>) returns (out: string)
    requires forall k :: 0 <= k < |lines| ==> ValidRegs(lines[k])
    ensures out == MemFile(Image(lines))
  {
    hide Digits, Bits, Layout, Encode;
    out := "";
    for k := 0 to |lines|
      invariant out == MemFile(Image(lines[..k]))
    {
      assert lines[..k + 1][..k] == lines[..k];
      if lines[k].InsnLine? {
        var text := WriteInsn(lines[k]);
        WordText(lines[k]);
        ghost var ws, w := Image(lines[..k]), Encode(lines[k]);
        assert (ws + [w])[..|ws|] == ws;
        out := out + text + "\n";
      } else {
        assert Image(lines[..k + 1]) == Image(lines[..k]);
      }
    }
    assert lines[..|lines|] == lines;
  }
}
