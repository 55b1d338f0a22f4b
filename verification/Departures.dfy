/** The instructions outside the subset: what the processor does with one of them behind a run of the
    subset, and exactly when that is what The RISC-V Instruction Set Manual, Volume I, sections
    2.4-2.6, says. The instruction is number t - 2 and in execute in cycle t; `At(p, t - 2)` is the
    sequential state before it. */
module Departures {
  import opened Options
  import opened Words
  import opened ControlLogic
  import opened Machine
  import opened Isa
  import opened Refinement
  import opened Stages
  import Alu
  import ImmGen
  import Mem

  // ----- operands -----

  /** The first source register of the instruction in execute, and that a load right before it is not
      still delivering it. */
  function First(p: Program, m: Cpu, t: nat): Word {
    At(p, t - 2).regs[Rs1(m.reg0)]
  }

  function Second(p: Program, m: Cpu, t: nat): Word {
    At(p, t - 2).regs[Rs2(m.reg0)]
  }

  predicate Ready(p: Program, t: nat, r: RegNo) {
    !StillLoading(Insn(p, t - 3), At(p, t - 3), r)
  }

  /** The operands any instruction gets in a run: the second one is not forwarded to instructions
      with an immediate, so it is the register of four instructions before. */
  lemma Operands(p: Program, m: Cpu, t: nat)
    requires Inv(p, m, t) && Opcode(m.reg0) != INST_NOP
    ensures m.Valid() && m.file.delay.intermediate1 == Rd(m.reg0)
    ensures m.Br1() == First(p, m, t) <==> Ready(p, t, Rs1(m.reg0))
    ensures NeedsSecond(m.reg0) ==> (m.Br2() == Second(p, m, t) <==> Ready(p, t, Rs2(m.reg0)))
    ensures !NeedsSecond(m.reg0) ==> m.Br2() == At(p, t - 4).regs[Rs2(m.reg0)]
  {
    hide Isa.Decode, Isa.After, Isa.Exec, Cpu.Select, StillLoading;
    var older, i, s := Insn(p, t - 4), Insn(p, t - 3), At(p, t - 4);
    GoodStep(p, t - 3);
    GoodStep(p, t - 4);
    Forwarded(m, older, i, s, Rs1(m.reg0), A1Sel(m.reg0, m.reg1, m.reg2));
    if NeedsSecond(m.reg0) {
      Forwarded(m, older, i, s, Rs2(m.reg0), B1Sel(m.reg0, m.reg1, m.reg2));
    } else {
      FromFile(m);
    }
  }

  lemma FromFile(m: Cpu)
    requires m.Valid() && !NeedsSecond(m.reg0)
    ensures m.Br2() == m.file.registers[m.file.oldAddrB]
  {
  }

  /** What is in the destination register three edges later. */
  function Arrived(p: Program, m: Cpu, u: (Unread, Unread, Unread)): Word
    requires m.Valid()
  {
    Later(p, m, u).file.registers[Rd(m.reg0)]
  }

  lemma Immediate12(p: Program, m: Cpu, t: nat)
    requires Inv(p, m, t) && Opcode(m.reg0) in {INST_REGIMM, INST_LOAD, INST_JALR}
    ensures m.imm == Wrap(ImmI(m.reg0))
  {
    hide Stages.Flight, Good;
    TopBits(m.reg0);
    SignFill(m.reg0, m.reg0 / 1048576);
  }

  // ----- comparisons -----

  predicate Negative(w: Word) {
    w >= 0x8000_0000
  }

  function Flag(b: bool): Word {
    if b then 1 else 0
  }

  /** SLT compares as unsigned: right exactly when both operands have the same sign. */
  lemma SltExact(p: Program, m: Cpu, t: nat, u: (Unread, Unread, Unread))
    requires Inv(p, m, t) && Opcode(m.reg0) == INST_REGREG && Funct3(m.reg0) == 2
    requires Ready(p, t, Rs1(m.reg0)) && Ready(p, t, Rs2(m.reg0))
    ensures var a, b := First(p, m, t), Second(p, m, t);
      Arrived(p, m, u) == Flag(Signed(a) < Signed(b)) <==> Negative(a) == Negative(b)
  {
    hide Inv, Cpu.Br1, Cpu.Br2, Ready, Later;
    Operands(p, m, t);
    AluArrives(p, m, u);
  }

  /** SLTU compares as signed: right exactly when both operands have the same sign. */
  lemma SltuExact(p: Program, m: Cpu, t: nat, u: (Unread, Unread, Unread))
    requires Inv(p, m, t) && Opcode(m.reg0) == INST_REGREG && Funct3(m.reg0) == 3
    requires Ready(p, t, Rs1(m.reg0)) && Ready(p, t, Rs2(m.reg0))
    ensures var a, b := First(p, m, t), Second(p, m, t);
      Arrived(p, m, u) == Flag(a < b) <==> Negative(a) == Negative(b)
  {
    hide Inv, Cpu.Br1, Cpu.Br2, Ready, Later;
    Operands(p, m, t);
    AluArrives(p, m, u);
  }

  /** SLTI and SLTIU compare with a register instead of the immediate: the one numbered by the low
      five bits of the immediate, as it was four instructions before. They are right exactly when
      that register's value is on the same side of the operand as the immediate. */
  lemma SltiExact(p: Program, m: Cpu, t: nat, u: (Unread, Unread, Unread))
    requires Inv(p, m, t) && Opcode(m.reg0) == INST_REGIMM && Funct3(m.reg0) in {2, 3} && Ready(p, t, Rs1(m.reg0))
    ensures var a, y, imm := First(p, m, t), At(p, t - 4).regs[Rs2(m.reg0)], ImmI(m.reg0);
      if Funct3(m.reg0) == 2
      then Arrived(p, m, u) == Flag(Signed(a) < imm) <==> (a < y <==> Signed(a) < imm)
      else Arrived(p, m, u) == Flag(a < Wrap(imm)) <==> (Signed(a) < Signed(y) <==> a < Wrap(imm))
  {
    hide Inv, Cpu.Br1, Cpu.Br2, Ready, Later, ImmI;
    Operands(p, m, t);
    AluArrives(p, m, u);
  }

  // ----- shifts -----

  /** Shift right with copies of the sign bit. */
  function ShiftRightArithmetic(a: Word, b: Word): Word {
    Wrap(FloorDiv(Signed(a), Pow2(b % 32)))
  }

  function FloorDiv(x: int, d: nat): int
    requires d >= 1
  {
    x / d
  }

  /** SRA shifts in zeros: right exactly for a non-negative operand or a zero shift amount. */
  lemma SraExact(p: Program, m: Cpu, t: nat, u: (Unread, Unread, Unread))
    requires Inv(p, m, t) && Opcode(m.reg0) == INST_REGREG && Funct3(m.reg0) == 5 && Funct7(m.reg0) == 32
    requires Ready(p, t, Rs1(m.reg0)) && Ready(p, t, Rs2(m.reg0))
    ensures var a, b := First(p, m, t), Second(p, m, t);
      Arrived(p, m, u) == ShiftRightArithmetic(a, b) <==> !Negative(a) || b % 32 == 0
  {
    hide Inv, Cpu.Br1, Cpu.Br2, Ready, Later, Words.Pow2, FloorDiv;
    Operands(p, m, t);
    AluArrives(p, m, u);
    ShiftFacts(First(p, m, t), Second(p, m, t) % 32);
  }

  lemma ShiftFacts(a: Word, n: nat)
    requires n < 32
    ensures Wrap(FloorDiv(Signed(a), Pow2(n))) == a / Pow2(n) <==> !Negative(a) || n == 0
  {
    var d := Pow2(n);
    if n == 0 {
      assert Pow2(0) == 1;
    } else if Negative(a) {
      PowerBounds(n);
      DivBounds(a, d);
      DivBounds(Signed(a), d);
    } else {
      DivBounds(a, d);
    }
  }

  lemma PowerBounds(n: nat)
    requires n > 0
    ensures Pow2(n) >= 2
  {
  }

  /** Halving or more: a large word falls below 2^31, a negative number stays negative. */
  lemma DivBounds(x: int, d: nat)
    requires d >= 1 && -0x8000_0000 <= x < 0x1_0000_0000
    ensures x < 0 ==> -0x8000_0000 <= x / d < 0
    ensures x >= 0 ==> 0 <= x / d <= x
    ensures x >= 0 && d >= 2 ==> x / d < 0x8000_0000
  {
    var q := x / d;
    assert x == d * q + x % d;
    if x >= 0 {
      if q < 0 { MulMonotone(q, -1, d); }
      MulMonotone(1, d, if q >= 0 then q else 0);
      MulMonotone(2, if d >= 2 then d else 2, if q >= 0 then q else 0);
    } else {
      if q >= 0 { MulMonotone(0, q, d); }
      MulMonotone(1, d, if q < 0 then -q else 0);
    }
  }

  /** SRLI and SRAI are not decoded and give 0. SRLI is right exactly when every set bit is shifted
      out, SRAI when in addition the operand is not negative. */
  lemma ShiftImmediateExact(p: Program, m: Cpu, t: nat, u: (Unread, Unread, Unread))
    requires Inv(p, m, t) && Opcode(m.reg0) == INST_REGIMM && Funct3(m.reg0) == 5 && Ready(p, t, Rs1(m.reg0))
    ensures var a, shamt := First(p, m, t), Rs2(m.reg0);
      && (Arrived(p, m, u) == ShiftRight(a, shamt) <==> a < Pow2(shamt))
      && (Arrived(p, m, u) == ShiftRightArithmetic(a, shamt) <==> !Negative(a) && a < Pow2(shamt))
  {
    hide Inv, Ready, Later, Words.Pow2, Cpu.AluResult, ShiftRight, ShiftRightArithmetic;
    Operands(p, m, t);
    AluArrives(p, m, u);
    NotDecoded(m);
    LogicalZero(First(p, m, t), Rs2(m.reg0));
    ArithmeticZero(First(p, m, t), Rs2(m.reg0));
  }

  lemma NotDecoded(m: Cpu)
    requires m.Valid() && Opcode(m.reg0) == INST_REGIMM && Funct3(m.reg0) == 5
    ensures m.AluResult() == 0
  {
  }

  lemma LogicalZero(a: Word, n: RegNo)
    ensures ShiftRight(a, n) == 0 <==> a < Pow2(n)
  {
    hide Words.Pow2;
    QuotientZero(a, Pow2(n));
  }

  lemma QuotientZero(a: nat, d: nat)
    requires d >= 1
    ensures a / d == 0 <==> a < d
  {
    assert a == d * (a / d) + a % d;
    if a / d >= 1 {
      MulMonotone(1, a / d, d);
    }
  }

  lemma ArithmeticZero(a: Word, n: RegNo)
    ensures ShiftRightArithmetic(a, n) == 0 <==> !Negative(a) && a < Pow2(n)
  {
    hide Words.Pow2, Words.Wrap;
    var d, x := Pow2(n), Signed(a);
    DivBounds(x, d);
    WrapSmall(FloorDiv(x, d));
    if x >= 0 {
      QuotientZero(x, d);
    }
  }

  lemma WrapSmall(x: int)
    requires -0x8000_0000 <= x < 0x8000_0000
    ensures Wrap(x) == 0 <==> x == 0
  {
  }

  // ----- AUIPC -----

  /** AUIPC shifts the sum of fetch PC and immediate. Two instructions further on than its own
      address, the fetch PC makes this right in one cycle of 2^30. */
  lemma AuipcExact(p: Program, m: Cpu, t: nat, u: (Unread, Unread, Unread))
    requires Inv(p, m, t) && Opcode(m.reg0) == INST_AUIPC
    ensures Arrived(p, m, u) == Wrap(4 * (t - 2) + ImmU(m.reg0) * 4096) <==> t % 0x4000_0000 == 0x0200_2002
  {
    hide Inv, Cpu.Br1, Cpu.Br2, Ready, Later;
    Operands(p, m, t);
    AluArrives(p, m, u);
    assert m.pc == Wrap(4 * t) && m.imm == ImmU(m.reg0) by { UpperInRun(p, m, t); }
    var q, r := t / 0x4000_0000, t % 0x4000_0000;
    assert 4 * t == 0x1_0000_0000 * q + 4 * r;
    ModUnique(4 * t, 0x1_0000_0000, q, 4 * r);
    SameShift(4 * r, ImmU(m.reg0), q);
  }

  lemma UpperInRun(p: Program, m: Cpu, t: nat)
    requires Inv(p, m, t) && Opcode(m.reg0) == INST_AUIPC
    ensures m.pc == Wrap(4 * t) && m.imm == ImmU(m.reg0)
  {
    hide Stages.Flight, Good;
  }

  lemma SameShift(pc: Word, upper: int, q: int)
    ensures Wrap((pc + upper) * 4096) == Wrap(0x1_0000_0000 * q + pc - 8 + upper * 4096) <==> pc == 0x0800_8008
  {
    var x, y := (pc + upper) * 4096, 0x1_0000_0000 * q + pc - 8 + upper * 4096;
    assert x - y == 4095 * pc + 8 - 0x1_0000_0000 * q;
    assert x == 0x1_0000_0000 * (x / 0x1_0000_0000) + Wrap(x);
    assert y == 0x1_0000_0000 * (y / 0x1_0000_0000) + Wrap(y);
    if Wrap(x) == Wrap(y) {
      var k := x / 0x1_0000_0000 - y / 0x1_0000_0000 + q;
      assert 4095 * pc + 8 == 0x1_0000_0000 * k;
      OneMultiple(pc, k);
    }
    if pc == 0x0800_8008 {
      assert x == y + 0x1_0000_0000 * (128 - q);
      ModUnique(x, 0x1_0000_0000, y / 0x1_0000_0000 + 128 - q, Wrap(y));
    }
  }

  lemma OneMultiple(pc: Word, k: int)
    requires 4095 * pc + 8 == 0x1_0000_0000 * k
    ensures pc == 0x0800_8008
  {
    assert 0 < k < 4096;
    var j := pc - 0x10_0100 * k;
    assert 4095 * j == 256 * k - 8;
    assert 0 <= j <= 256;
    assert 8 * (32 * k - 1) == 4095 * j;
    assert j % 8 == 0;
    var h := j / 8;
    assert 32 * k - 1 == 4095 * h && 0 <= h <= 32;
    assert h == 32 * (128 * h - k) + 1;
    assert h == 1;
  }

  // ----- loads -----

  function SignExtend(v: nat, bits: nat): Word
    requires bits >= 1
  {
    if v >= Pow2(bits - 1) then Wrap(v - Pow2(bits)) else Wrap(v)
  }

  /** LB and LH load one and two bytes and fill with zeros: right exactly when the loaded number has a clear top bit. */
  lemma LoadSignExact(p: Program, m: Cpu, t: nat, u: (Unread, Unread, Unread))
    requires Inv(p, m, t) && Opcode(m.reg0) == INST_LOAD && Funct3(m.reg0) in {0, 1} && Ready(p, t, Rs1(m.reg0))
    requires Wrap(First(p, m, t) + ImmI(m.reg0)) + (if Funct3(m.reg0) == 0 then 1 else 2) <= 64
    ensures var n := if Funct3(m.reg0) == 0 then 1 else 2;
      var v := LoadLE(At(p, t - 2).mem, Wrap(First(p, m, t) + ImmI(m.reg0)), n);
      Arrived(p, m, u) == v && (Arrived(p, m, u) == SignExtend(v, 8 * n) <==> v < Pow2(8 * n - 1))
  {
    hide Mem.Read, LoadLE, Inv, Ready, Later, Cpu.Br1, Cpu.Br2, Words.Pow2, ImmI;
    var n, a, mem := Mem.Bytes(MemSizeOf(m.reg0)), Wrap(First(p, m, t) + ImmI(m.reg0)), At(p, t - 2).mem;
    Operands(p, m, t);
    Immediate12(p, m, t);
    WrapAdd(First(p, m, t), ImmI(m.reg0));
    LoadArrives(p, m, u);
    MemoryInRun(p, m, t, u.0);
    Mem.ReadIsLoad(mem, MemSizeOf(m.reg0), a, u.1);
    SignFacts(mem, a, n);
  }

  lemma MemoryInRun(p: Program, m: Cpu, t: nat, unknown: Unread)
    requires Inv(p, m, t)
    ensures m.Valid() && m.Next(p, unknown).memory.bytes == At(p, t - 2).mem
  {
    hide Isa.Decode, Isa.After, Isa.Exec, Mem.Read, Mem.Write;
    GoodStep(p, t - 3);
    GoodStep(p, t - 4);
    MemoryStage(m, Insn(p, t - 4), Insn(p, t - 3), At(p, t - 4), unknown);
  }

  lemma SignFacts(mem: seq<Byte>, a: nat, n: nat)
    requires n in {1, 2} && a + n <= |mem|
    ensures var v := LoadLE(mem, a, n); v < 0x1_0000 && (v == SignExtend(v, 8 * n) <==> v < Pow2(8 * n - 1))
  {
    hide LoadLE;
    Mem.LoadUnrolled(mem, a, n);
    assert Pow2(7) == 128 && Pow2(8) == 256;
    assert Pow2(15) == 32768 && Pow2(16) == 65536 by { assert Pow2(12) == 4096; }
  }

  // ----- jumps and branches -----

  /** The offset the processor takes. Its immediate generator leaves bit 0 at the sign, so a backward
      branch or JAL gets one more than the manual's offset. */
  function Offset(w: Word): int {
    if Opcode(w) == INST_BRANCH then ImmB(w) + ImmGen.Sign(w)
    else if Opcode(w) == INST_JAL then ImmJ(w) + ImmGen.Sign(w)
    else ImmI(w)
  }

  lemma OffsetExact(w: Word)
    requires Opcode(w) in {INST_BRANCH, INST_JAL, INST_JALR}
    ensures ImmGen.Immediate(ImmSelOf(w), w) == Wrap(Offset(w))
    ensures Opcode(w) == INST_BRANCH ==>
      (ImmGen.Immediate(ImmSelOf(w), w) == Wrap(ImmB(w)) <==> ImmB(w) >= 0) && -4096 <= ImmB(w) < 4096
        && ImmB(w) % 2 == 0
    ensures Opcode(w) == INST_JAL ==>
      (ImmGen.Immediate(ImmSelOf(w), w) == Wrap(ImmJ(w)) <==> ImmJ(w) >= 0) && -0x10_0000 <= ImmJ(w) < 0x10_0000
  {
    if Opcode(w) == INST_BRANCH {
      BranchOffset(w);
    } else if Opcode(w) == INST_JAL {
      JalOffset(w);
    } else {
      TopBits(w);
      SignFill(w, w / 1048576);
    }
  }

  lemma BranchOffset(w: Word)
    ensures ImmGen.Immediate(ImmGen.IMM_BRANCH, w) == Wrap(ImmB(w) + ImmGen.Sign(w))
    ensures ImmGen.Immediate(ImmGen.IMM_BRANCH, w) == Wrap(ImmB(w)) <==> ImmB(w) >= 0
    ensures -4096 <= ImmB(w) < 4096 && ImmB(w) % 2 == 0
    ensures ImmGen.Sign(w) == if ImmB(w) < 0 then 1 else 0
  {
    var s, b, h, l := w / 0x8000_0000, w / 128 % 2, w / 33554432 % 64, w / 256 % 16;
    assert 0 <= s < 2 && 0 <= b < 2 && 0 <= h < 64 && 0 <= l < 16;
    assert ImmB(w) == 2 * (b * 1024 + h * 16 + l - s * 2048);
  }

  lemma JalOffset(w: Word)
    ensures ImmGen.Immediate(ImmGen.IMM_JAL, w) == Wrap(ImmJ(w) + ImmGen.Sign(w))
    ensures ImmGen.Immediate(ImmGen.IMM_JAL, w) == Wrap(ImmJ(w)) <==> ImmJ(w) >= 0
    ensures -0x10_0000 <= ImmJ(w) < 0x10_0000
  {
    var s, c, b, a := w / 0x8000_0000, w / 4096 % 256, w / 1048576 % 2, w / 2097152 % 1024;
    assert 0 <= s < 2 && 0 <= c < 256 && 0 <= b < 2 && 0 <= a < 1024;
  }

  /** A taken branch, JAL and JALR put the fetch PC they saw plus the immediate into the PC three
      edges after execute, an untaken branch 0: it redirects the PC from write-back all the same. */
  lemma JumpLands(p: Program, m: Cpu, u: (Unread, Unread, Unread))
    requires m.Valid() && Opcode(m.reg0) in {INST_BRANCH, INST_JAL, INST_JALR}
    ensures Later(p, m, u).pc ==
            if Opcode(m.reg0) == INST_BRANCH && !Taken(m.reg0, m.BrEq(), m.BrLt()) then 0 else Wrap(m.pc + m.imm)
  {
    hide Mem.Read, Mem.Write, Cpu.Br1, Cpu.Br2;
    var m1 := m.Next(p, u.0);
    var m2 := m1.Next(p, u.1);
    assert m1.alu == m.AluResult() && m1.reg1 == m.reg0;
    assert m2.memory.aluOut == m1.alu && m2.reg2 == m.reg0;
    assert m2.NextPc() == m2.Wb() == m2.memory.aluOut;
  }

  lemma InRun(p: Program, m: Cpu, t: nat)
    requires Inv(p, m, t)
    ensures m.Valid() && m.file.delay.intermediate1 == Rd(m.reg0) && m.pc == Wrap(4 * t)
    ensures m.imm == ImmGen.Immediate(ImmSelOf(m.reg0), m.reg0)
    ensures Opcode(m.reg1) !in {INST_BRANCH, INST_JAL, INST_JALR}
    ensures Opcode(m.reg2) !in {INST_BRANCH, INST_JAL, INST_JALR}
  {
    hide Good;
  }

  /** In a run the fetch PC is two instructions on. */
  lemma JumpInRun(p: Program, m: Cpu, t: nat)
    requires Inv(p, m, t) && Opcode(m.reg0) in {INST_BRANCH, INST_JAL, INST_JALR}
    ensures m.Valid() && Wrap(m.pc + m.imm) == Wrap(4 * (t - 2) + 8 + Offset(m.reg0))
  {
    hide Inv, Offset, ImmGen.Immediate;
    InRun(p, m, t);
    OffsetExact(m.reg0);
    WrapAdd(m.pc, Offset(m.reg0));
    WrapAdd(Offset(m.reg0), 4 * t);
  }

  /** The branch condition as the processor evaluates it: BLT and BGE compare as unsigned, BLTU and
      BGEU as signed. */
  predicate Compared(f3: int, a: Word, b: Word) {
    match f3
    case 0 => a == b
    case 1 => a != b
    case 4 => a < b
    case 5 => a >= b
    case 6 => Signed(a) < Signed(b)
    case 7 => Signed(a) >= Signed(b)
    case _ => false
  }

  /** The manual's condition for each function code. */
  predicate Condition(f3: int, a: Word, b: Word) {
    match f3
    case 0 => a == b
    case 1 => a != b
    case 4 => Signed(a) < Signed(b)
    case 5 => Signed(a) >= Signed(b)
    case 6 => a < b
    case 7 => a >= b
    case _ => false
  }

  /** So BLT, BGE, BLTU and BGEU are decided rightly exactly for operands of the same sign. */
  lemma ConditionExact(f3: int, a: Word, b: Word)
    ensures Compared(f3, a, b) == Condition(f3, a, b) <==> f3 !in {4, 5, 6, 7} || Negative(a) == Negative(b)
  {
  }

  lemma TakenCompares(m: Cpu)
    requires m.Valid() && Opcode(m.reg0) == INST_BRANCH
    ensures Taken(m.reg0, m.BrEq(), m.BrLt()) == Compared(Funct3(m.reg0), m.Br1(), m.Br2())
  {
    hide Cpu.Br1, Cpu.Br2;
  }

  /** A branch in a run, against the manual's condition and offset. Where the processor takes the
      branch it lands 8 past the target, 9 past a target before it; where it does not it lands at 0.
      This is the address the manual says, the target or the fetch address reached by then, exactly
      when a branch over two instructions is taken wrongly, or when that address is 0. */
  lemma BranchInRun(p: Program, m: Cpu, t: nat, u: (Unread, Unread, Unread))
    requires Inv(p, m, t) && Opcode(m.reg0) == INST_BRANCH
    requires Ready(p, t, Rs1(m.reg0)) && Ready(p, t, Rs2(m.reg0))
    ensures var w, a, b, address := m.reg0, First(p, m, t), Second(p, m, t), 4 * (t - 2);
      var taken, right := Compared(Funct3(w), a, b), Condition(Funct3(w), a, b);
      && Later(p, m, u).pc == (if taken then Wrap(address + 8 + Offset(w)) else 0)
      && (Later(p, m, u).pc == Wrap(if right then address + ImmB(w) else address + 20) <==>
          if taken then !right && ImmB(w) == 12 else Wrap(if right then address + ImmB(w) else address + 20) == 0)
  {
    hide Inv, Ready, Later, Cpu.Br1, Cpu.Br2, Cpu.BrEq, Cpu.BrLt, Compared, Condition, ImmB, Offset;
    Operands(p, m, t);
    JumpLands(p, m, u);
    TakenCompares(m);
    JumpInRun(p, m, t);
    BranchAddress(4 * (t - 2), m.reg0);
  }

  lemma BranchAddress(address: int, w: Word)
    requires Opcode(w) == INST_BRANCH
    ensures Wrap(address + 8 + Offset(w)) != Wrap(address + ImmB(w))
    ensures Wrap(address + 8 + Offset(w)) == Wrap(address + 20) <==> ImmB(w) == 12
  {
    hide Words.Wrap, ImmB, ImmGen.Sign;
    BranchOffset(w);
    WrapEqual(address + 8 + Offset(w), address + ImmB(w));
    WrapEqual(address + 8 + Offset(w), address + 20);
  }

  /** In a run JAL lands 8 past its target, and 9 past a target before it: never on it. */
  lemma JalInRun(p: Program, m: Cpu, t: nat, u: (Unread, Unread, Unread))
    requires Inv(p, m, t) && Opcode(m.reg0) == INST_JAL
    ensures var target := 4 * (t - 2) + ImmJ(m.reg0);
      Later(p, m, u).pc == Wrap(target + (if ImmJ(m.reg0) < 0 then 9 else 8)) != Wrap(target)
  {
    hide Inv, Later, ImmJ;
    JumpInRun(p, m, t);
    JumpLands(p, m, u);
    JalBack(m.reg0);
    WrapEqual(4 * (t - 2) + 8 + Offset(m.reg0), 4 * (t - 2) + ImmJ(m.reg0));
  }

  lemma JalBack(w: Word)
    ensures ImmJ(w) < 0 <==> ImmGen.Sign(w) == 1
    ensures ImmGen.Sign(w) in {0, 1}
  {
  }

  /** JALR adds its offset to the fetch PC instead of its register: right exactly when the offset is
      even and the register holds the fetch PC, up to its lowest bit. */
  lemma JalrExact(p: Program, m: Cpu, t: nat, u: (Unread, Unread, Unread))
    requires Inv(p, m, t) && Opcode(m.reg0) == INST_JALR
    ensures var a, imm := First(p, m, t), ImmI(m.reg0); var target := Wrap(a + imm);
      Later(p, m, u).pc == target - target % 2 <==> imm % 2 == 0 && a - a % 2 == Wrap(4 * t)
  {
    hide Inv, Later, ImmI;
    InRun(p, m, t);
    JumpLands(p, m, u);
    Immediate12(p, m, t);
    EvenPart(First(p, m, t), ImmI(m.reg0), Wrap(4 * t), t);
  }

  lemma EvenPart(a: Word, imm: int, pc: Word, t: nat)
    requires pc == Wrap(4 * t)
    ensures var target := Wrap(a + imm);
      Wrap(pc + Wrap(imm)) == target - target % 2 <==> imm % 2 == 0 && a - a % 2 == pc
  {
    hide Words.Wrap;
    WrapAdd(pc, imm);
    WrapParity(4 * t);
    WrapParity(a + imm);
    WrapParity(pc + imm);
    assert pc % 2 == 0;
    Parity(pc, imm);
    Parity(a, imm);
    if imm % 2 == 0 {
      WrapLess(a + imm, a % 2);
      WrapEqual(a + imm - a % 2, pc + imm);
    }
  }

  lemma Parity(x: int, y: int)
    ensures (x + y) % 2 == (x % 2 + y % 2) % 2
  {
  }

  lemma WrapParity(x: int)
    ensures Wrap(x) % 2 == x % 2
  {
  }

  lemma WrapLess(x: int, d: int)
    requires 0 <= d <= Wrap(x)
    ensures Wrap(x - d) == Wrap(x) - d
  {
  }

  lemma WrapEqual(x: int, y: int)
    requires -0x1_0000_0000 < x - y < 0x1_0000_0000
    ensures Wrap(x) == Wrap(y) <==> x == y
  {
  }

  // ----- the link register -----

  /** What the instruction before the jump leaves on the write-back bus: its result, the address of a
      store, or the first byte of the memory for a NOP. */
  function LeftOver(i: Instr, s: State): Word
    requires s.Valid() && |s.mem| == 64 && InRange(i, s)
  {
    if HasDest(i) then Result(i, s) else if i.Store? then Address(i, s) else s.mem[0] as int
  }

  /** What a branch right behind a jump gets for register r: the target for the link register. */
  function Seen(p: Program, w: Word, t: nat, r: RegNo): Word {
    if r == Rd(w) then Wrap(4 * (t - 2) + 8 + Offset(w)) else At(p, t - 2).regs[r]
  }

  /** The link register of JAL and JALR gets the write-back PC plus 4, which is 16 too far: it is right
      exactly when a branch behind the jump is taken, and the instruction before the jump happens to
      have left the jump's own address. */
  lemma LinkExact(p: Program, m: Cpu, t: nat, u: (Unread, Unread, Unread))
    requires Inv(p, m, t) && Opcode(m.reg0) in {INST_JAL, INST_JALR}
    ensures var w, next, address := m.reg0, m.inst, 4 * (t - 2);
      var a, b, left := Seen(p, w, t, Rs1(next)), Seen(p, w, t, Rs2(next)), LeftBehind(p, t);
      var taken := Opcode(next) == INST_BRANCH && Compared(Funct3(next), a, b);
      && m.Valid()
      && Arrived(p, m, u) == Wrap((if taken then left else address + 16) + 4)
      && (Arrived(p, m, u) == Wrap(address + 4) <==> taken && left == Wrap(address))
  {
    hide Inv, Cpu.Next, Later, Compared, Seen, LeftBehind;
    InRun(p, m, t);
    LinkArrives(p, m, u);
    SecondEdge(p, m, t, u);
    LinkAddress(t, LeftBehind(p, t));
  }

  /** The instruction before the one in execute, on the bus. */
  function LeftBehind(p: Program, t: nat): Word {
    if InRange(Insn(p, t - 3), At(p, t - 3)) then LeftOver(Insn(p, t - 3), At(p, t - 3)) else 0
  }

  lemma LinkAddress(t: nat, left: Word)
    ensures var address := 4 * (t - 2);
      && Wrap(Wrap(Wrap(Wrap(4 * t) + 4) + 4) + 4) == Wrap(address + 16 + 4) != Wrap(address + 4)
      && (Wrap(left + 4) == Wrap(address + 4) <==> left == Wrap(address))
  {
    hide Words.Wrap;
    WrapAdd(4, 4 * t);
    WrapAdd(4, 4 * t + 4);
    WrapAdd(4, 4 * t + 8);
    WrapEqual(4 * (t - 2) + 16 + 4, 4 * (t - 2) + 4);
    WrapAdd(4, 4 * (t - 2));
    WrapEqual(left + 4, Wrap(4 * (t - 2)) + 4);
  }

  lemma LinkArrives(p: Program, m: Cpu, u: (Unread, Unread, Unread))
    requires m.Valid() && m.file.delay.intermediate1 == Rd(m.reg0) && Opcode(m.reg0) in {INST_JAL, INST_JALR}
    ensures Later(p, m, u).file.registers[Rd(m.reg0)] == Wrap(m.Next(p, u.0).Next(p, u.1).pc + 4)
  {
    hide Mem.Read, Mem.Write, Cpu.AluResult, Cpu.NextPc, Cpu.Br2;
    var m1 := m.Next(p, u.0);
    var m2 := m1.Next(p, u.1);
    assert m1.reg1 == m.reg0 && m1.file.delay.intermediate2 == Rd(m.reg0);
    assert m2.reg2 == m.reg0 && m2.file.delay.out == Rd(m.reg0);
    assert m2.DataD() == m2.PcPlus4();
  }

  lemma NotJumping(m: Cpu)
    requires m.Valid() && Opcode(m.reg0) != INST_BRANCH && Opcode(m.reg2) !in {INST_BRANCH, INST_JAL, INST_JALR}
    ensures m.NextPc() == m.PcPlus4()
  {
  }

  /** A branch in execute redirects the PC to what is on the write-back bus. */
  lemma BranchRedirects(m: Cpu)
    requires m.Valid() && Opcode(m.reg0) == INST_BRANCH && Opcode(m.reg2) !in {INST_BRANCH, INST_JAL, INST_JALR}
    ensures m.NextPc() == if Compared(Funct3(m.reg0), m.Br1(), m.Br2()) then m.Wb() else m.PcPlus4()
  {
    hide Cpu.Br1, Cpu.Br2;
  }

  /** The bus one edge later. */
  lemma BusInRun(p: Program, m: Cpu, t: nat, unknown: Unread)
    requires Inv(p, m, t)
    ensures m.Valid() && m.Next(p, unknown).Wb() == LeftBehind(p, t)
    ensures m.Next(p, unknown).DataD() == LeftBehind(p, t)
    ensures m.Next(p, unknown).file.registers == At(p, t - 3).regs
  {
    hide Isa.Decode, Isa.After, Mem.Read, Mem.Write, Isa.LoadLE, Isa.StoreLE, Isa.Exec, Cpu.AluResult, Cpu.Br2;
    GoodStep(p, t - 3);
    GoodStep(p, t - 4);
    var older, i, s := Insn(p, t - 4), Insn(p, t - 3), At(p, t - 4);
    MemoryStage(m, older, i, s, unknown);
    WriteBackStage(m, older, i, s);
    if i.Nop? {
      NopReads(p, m, t, unknown);
    }
  }

  /** A NOP reads the first byte of the memory. */
  lemma NopReads(p: Program, m: Cpu, t: nat, unknown: Unread)
    requires Inv(p, m, t) && Insn(p, t - 3).Nop?
    ensures m.Valid() && m.Next(p, unknown).memory.dataOut == At(p, t - 3).mem[0] as int
  {
    hide Isa.Decode, Isa.After, Mem.Read, Mem.Write, Isa.LoadLE, Isa.StoreLE, Isa.Exec, Cpu.AluResult, Cpu.Br2;
    GoodStep(p, t - 3);
    GoodStep(p, t - 4);
    Mem.ReadIsLoad(m.memory.bytes, BYTE, 0, unknown);
    Mem.LoadUnrolled(m.memory.bytes, 0, 1);
  }

  /** What the instruction before the jump does to register r. */
  lemma RegisterStep(p: Program, m: Cpu, t: nat, r: RegNo)
    requires Inv(p, m, t)
    ensures At(p, t - 2).regs[r] ==
      if HasResult(m.reg1) && Rd(m.reg1) == r then LeftBehind(p, t) else At(p, t - 3).regs[r]
  {
    hide Isa.Decode, Isa.After, Isa.Result, Cpu.Br1, Cpu.Br2, Good;
    assert Good(p, t - 2);
    GoodStep(p, t - 3);
    GoodStep(p, t - 4);
  }

  /** What register r looks like to the instruction right behind the jump. */
  lemma SeenBehind(p: Program, m: Cpu, t: nat, unknown: Unread, r: RegNo, source: Source)
    requires Inv(p, m, t) && Opcode(m.reg0) in {INST_JAL, INST_JALR}
    requires source == if Rd(m.reg0) == r then FromAlu
                       else if HasResult(m.reg1) && Rd(m.reg1) == r then FromWriteBack
                       else FromRegister
    ensures m.Valid() && m.Next(p, unknown).Valid()
    ensures m.Next(p, unknown).Select(source, m.Next(p, unknown).file.registers[r]) == Seen(p, m.reg0, t, r)
  {
    hide Inv, Offset, Cpu.DataD, Cpu.Next, LeftBehind;
    BusInRun(p, m, t, unknown);
    JumpInRun(p, m, t);
    RegisterStep(p, m, t, r);
    JumpTarget(p, m, unknown);
  }

  lemma JumpTarget(p: Program, m: Cpu, unknown: Unread)
    requires m.Valid() && Opcode(m.reg0) in {INST_JAL, INST_JALR}
    ensures m.Next(p, unknown).alu == Wrap(m.pc + m.imm)
  {
    hide Mem.Read, Mem.Write, Cpu.Br1, Cpu.Br2;
  }

  /** One edge behind a jump: the next instruction is in execute with its own registers. */
  lemma NextInExecute(p: Program, m: Cpu, unknown: Unread)
    requires m.Valid()
    ensures var n := m.Next(p, unknown);
      && n.reg0 == m.inst && n.reg1 == m.reg0 && n.reg2 == m.reg1 && n.pc == m.NextPc()
      && n.Br1() == n.Select(A1Sel(m.inst, m.reg0, m.reg1), n.file.registers[Rs1(m.inst)])
      && n.Br2() == n.Select(B1Sel(m.inst, m.reg0, m.reg1), n.file.registers[Rs2(m.inst)])
  {
    hide Mem.Read, Mem.Write, Cpu.AluResult, Cpu.NextPc, Cpu.Select, A1Sel, B1Sel, HasResult, NeedsSecond;
  }

  /** Where the PC is two edges later. */
  lemma SecondEdge(p: Program, m: Cpu, t: nat, u: (Unread, Unread, Unread))
    requires Inv(p, m, t) && Opcode(m.reg0) in {INST_JAL, INST_JALR}
    ensures m.Valid()
    ensures var next := m.inst;
      m.Next(p, u.0).Next(p, u.1).pc ==
      if Opcode(next) == INST_BRANCH
        && Compared(Funct3(next), Seen(p, m.reg0, t, Rs1(next)), Seen(p, m.reg0, t, Rs2(next)))
      then LeftBehind(p, t) else Wrap(Wrap(Wrap(4 * t) + 4) + 4)
  {
    hide Inv, Cpu.Next, Cpu.NextPc, Cpu.Select, Cpu.Wb, Cpu.DataD, Cpu.Br1, Cpu.Br2, Compared, Seen, LeftBehind;
    InRun(p, m, t);
    NotJumping(m);
    NextInExecute(p, m, u.0);
    var m1 := m.Next(p, u.0);
    NextInExecute(p, m1, u.1);
    if Opcode(m.inst) == INST_BRANCH {
      BusInRun(p, m, t, u.0);
      BranchRedirects(m1);
      SeenBehind(p, m, t, u.0, Rs1(m.inst), A1Sel(m.inst, m.reg0, m.reg1));
      SeenBehind(p, m, t, u.0, Rs2(m.inst), B1Sel(m.inst, m.reg0, m.reg1));
    } else {
      NotJumping(m1);
    }
  }

  // ----- the first redirection -----

  /** A taken branch redirects the PC from execute too, one edge later and to what the second
      instruction before it left on the write-back bus. */
  lemma BranchAtOnce(p: Program, m: Cpu, t: nat, u: (Unread, Unread))
    requires Inv(p, m, t) && Good(p, t - 1) && Opcode(m.inst) == INST_BRANCH
    requires Ready(p, t + 1, Rs1(m.inst)) && Ready(p, t + 1, Rs2(m.inst))
    ensures var a, b := At(p, t - 1).regs[Rs1(m.inst)], At(p, t - 1).regs[Rs2(m.inst)];
      && m.Valid()
      && m.Next(p, u.0).Next(p, u.1).pc ==
         if Compared(Funct3(m.inst), a, b) then LeftBehind(p, t) else Wrap(4 * (t + 2))
  {
    hide Inv, Good, Ready, Cpu.Next, Cpu.NextPc, Cpu.Wb, Cpu.Br1, Cpu.Br2, Compared, LeftBehind;
    InRun(p, m, t);
    NextPreserves(p, m, t, u.0);
    var n := m.Next(p, u.0);
    NextInExecute(p, m, u.0);
    NextInExecute(p, n, u.1);
    InRun(p, n, t + 1);
    Operands(p, n, t + 1);
    BusInRun(p, m, t, u.0);
    BranchRedirects(n);
    PcArithmetic(t + 1);
  }
}
