/** What each pipeline stage does for the instructions in flight, in terms of the sequential
    state `s` just before the oldest of them (the one in write-back). */
module Stages {
  import opened Options
  import opened Words
  import opened ControlLogic
  import opened RegFile
  import opened Isa
  import opened Machine
  import Alu
  import ImmGen
  import Mem

  predicate UsesFirst(i: Instr) {
    i.RegReg? || i.RegImm? || i.Load? || i.Store?
  }

  predicate UsesSecond(i: Instr) {
    i.RegReg? || i.Store?
  }

  predicate WritesZero(i: Instr) {
    HasDest(i) && i.rd == 0
  }

  /** The instruction puts something else than zero into register 0. */
  predicate Spoils(i: Instr, s: State)
    requires s.Valid()
  {
    WritesZero(i) && (InRange(i, s) ==> Result(i, s) != 0)
  }

  // ----- what the hardware decodes from the word of an instruction -----

  predicate Fields(w: Word, i: Instr) {
    && HasResult(w) == HasDest(i)
    && (HasDest(i) ==> i.rd == Rd(w))
    && (UsesFirst(i) ==> i.rs1 == Rs1(w) && Opcode(w) != INST_NOP)
    && (UsesSecond(i) ==> i.rs2 == Rs2(w) && NeedsSecond(w))
    && (i.Load? <==> Opcode(w) == INST_LOAD)
    && (i.Store? <==> Opcode(w) == INST_STORE)
    && (i.Load? || i.Store? ==> i.size == Mem.Bytes(MemSizeOf(w)))
    && !A2Sel(w) && !WbSel2(w) && Opcode(w) != INST_BRANCH
  }

  lemma FieldsOf(w: Word, i: Instr)
    requires Decode(w) == Some(i)
    ensures Fields(w, i)
  {
  }

  function OpFor(op: Arith): Alu.AluOp {
    match op
    case Add => Alu.ADD
    case Sub => Alu.SUB
    case And => Alu.AND
    case Or => Alu.OR
    case Xor => Alu.XOR
    case Sll => Alu.SLL
    case Srl => Alu.SRL
  }

  lemma EvalIsAlu(op: Arith, a: Word, b: Word)
    ensures Alu.Result(OpFor(op), a, b) == Eval(op, a, b)
  {
  }

  /** ALU operation and operand selection. */
  predicate Operation(w: Word, i: Instr, eq: bool, lt: bool) {
    var op := AluOpOf(w, eq, lt);
    match i
    case Nop => op == Alu.OUT_ZERO
    case RegReg(o, _, _, _) => !B2Sel(w) && op == OpFor(o)
    case RegImm(o, _, _, _) => B2Sel(w) && op == OpFor(o)
    case Lui(_, _) => B2Sel(w) && op == Alu.LUI
    case _ => B2Sel(w) && op == Alu.ADD
  }

  lemma OperationOf(w: Word, i: Instr, eq: bool, lt: bool)
    requires Decode(w) == Some(i)
    ensures Operation(w, i, eq, lt)
  {
  }

  lemma SignFill(w: Word, low: int)
    requires 0 <= low < 4096 && (low >= 2048 <==> w >= 0x8000_0000)
    ensures ImmGen.Fill(w, 4096, low) == Wrap(SignExtend12(low))
  {
  }

  lemma TopBits(w: Word)
    ensures w / 1048576 >= 2048 <==> w >= 0x8000_0000
    ensures Funct7(w) * 32 + Rd(w) >= 2048 <==> w >= 0x8000_0000
    ensures Funct7(w) == 0 ==> w / 1048576 == Rs2(w) && w < 0x8000_0000
  {
  }

  predicate ImmediateRight(i: Instr, imm: Word) {
    && (i.RegImm? || i.Load? || i.Store? ==> imm == Wrap(i.imm))
    && (i.Lui? ==> imm == i.upper)
  }

  lemma ImmediateOf(w: Word, i: Instr)
    requires Decode(w) == Some(i)
    ensures ImmediateRight(i, ImmGen.Immediate(ImmSelOf(w), w))
  {
    TopBits(w);
    if Opcode(w) == INST_STORE {
      SignFill(w, Funct7(w) * 32 + Rd(w));
    } else {
      SignFill(w, w / 1048576);
    }
  }

  // ----- instructions in flight -----

  /** The output registers of execute hold what the instruction now in memory needs. */
  predicate InMemoryStage(i: Instr, s: State, alu: Word, dataW: Word)
    requires s.Valid() && InRange(i, s)
  {
    && (i.Load? || i.Store? ==> alu == Address(i, s))
    && (i.Store? ==> dataW == s.regs[i.rs2])
    && (HasDest(i) && !i.Load? ==> alu == Result(i, s))
    && (i.Nop? ==> alu == 0)
  }

  /** The output registers of memory hold what the instruction now in write-back needs. */
  predicate InWriteBack(i: Instr, s: State, dataOut: Word, aluOut: Word)
    requires s.Valid() && InRange(i, s)
  {
    HasDest(i) ==> (if i.Load? then dataOut else aluOut) == Result(i, s)
  }

  /** `older` is in write-back and `i` in memory; `s` is the sequential state before `older`. */
  predicate Flight(m: Cpu, older: Instr, i: Instr, s: State) {
    && m.Valid() && s.Valid() && |s.mem| == 64
    && InRange(older, s) && InRange(i, Exec(older, s))
    && !Spoils(older, s) && !Spoils(i, Exec(older, s))
    && Fields(m.reg2, older) && Fields(m.reg1, i)
    && m.file.delay.out == Rd(m.reg2)
    && m.file.registers == s.regs
    && m.memory.bytes == Exec(older, s).mem
    && InMemoryStage(i, Exec(older, s), m.alu, m.dataW)
    && InWriteBack(older, s, m.memory.dataOut, m.memory.aluOut)
  }

  // ----- execute: forwarding -----

  /** A load of register r is in the memory stage, and what it loads is not its own address. */
  predicate StillLoading(i: Instr, s: State, r: RegNo)
    requires s.Valid()
  {
    i.Load? && InRange(i, s) && i.rd == r && Result(i, s) != Address(i, s)
  }

  lemma RegisterAfterTwo(older: Instr, i: Instr, s: State, r: RegNo)
    requires s.Valid() && InRange(older, s) && InRange(i, Exec(older, s))
    requires !Spoils(older, s) && !Spoils(i, Exec(older, s))
    ensures Exec(i, Exec(older, s)).regs[r] ==
            if HasDest(i) && i.rd == r then Result(i, Exec(older, s))
            else if HasDest(older) && older.rd == r then Result(older, s)
            else s.regs[r]
  {
  }

  lemma WriteBackValue(m: Cpu, older: Instr, i: Instr, s: State)
    requires Flight(m, older, i, s)
    ensures HasDest(older) ==> m.DataD() == Result(older, s)
  {
  }

  /** The operand network delivers register r as it is after both older instructions, whichever of
      the three sources it takes, exactly unless the value is still being loaded: then it
      delivers the address of the load. */
  lemma Forwarded(m: Cpu, older: Instr, i: Instr, s: State, r: RegNo, source: Source)
    requires Flight(m, older, i, s)
    requires source == if HasResult(m.reg1) && Rd(m.reg1) == r then FromAlu
                       else if HasResult(m.reg2) && Rd(m.reg2) == r then FromWriteBack
                       else FromRegister
    ensures m.Select(source, m.file.registers[r]) == Exec(i, Exec(older, s)).regs[r] <==>
            !StillLoading(i, Exec(older, s), r)
  {
    WriteBackValue(m, older, i, s);
    RegisterAfterTwo(older, i, s, r);
  }

  /** The operands that execute hands to the ALU and to the store-data register. */
  predicate OperandsRight(m: Cpu, e: Instr, s: State)
    requires m.Valid() && s.Valid()
  {
    && (UsesFirst(e) ==> m.Br1() == s.regs[e.rs1])
    && (UsesSecond(e) ==> m.Br2() == s.regs[e.rs2])
  }

  /** An operand of `e` is the register a load in the memory stage has not delivered yet. */
  predicate Stalled(e: Instr, i: Instr, s: State)
    requires s.Valid()
  {
    (UsesFirst(e) && StillLoading(i, s, e.rs1)) || (UsesSecond(e) && StillLoading(i, s, e.rs2))
  }

  lemma ForwardingExact(m: Cpu, older: Instr, i: Instr, e: Instr, s: State)
    requires Flight(m, older, i, s) && Fields(m.reg0, e)
    requires Opcode(m.reg0) != INST_NOP ==> m.file.oldAddrA == Rs1(m.reg0) && m.file.oldAddrB == Rs2(m.reg0)
    ensures OperandsRight(m, e, Exec(i, Exec(older, s))) <==> !Stalled(e, i, Exec(older, s))
  {
    if UsesFirst(e) {
      Forwarded(m, older, i, s, e.rs1, A1Sel(m.reg0, m.reg1, m.reg2));
    }
    if UsesSecond(e) {
      Forwarded(m, older, i, s, e.rs2, B1Sel(m.reg0, m.reg1, m.reg2));
    }
  }

  // ----- execute: the ALU -----

  lemma WrapAdd(a: int, b: int)
    ensures Wrap(a + Wrap(b)) == Wrap(a + b)
  {
  }

  lemma ExecuteStage(m: Cpu, e: Instr, s: State)
    requires m.Valid() && s.Valid() && InRange(e, s)
    requires Fields(m.reg0, e) && Operation(m.reg0, e, m.BrEq(), m.BrLt()) && ImmediateRight(e, m.imm)
    requires OperandsRight(m, e, s)
    ensures InMemoryStage(e, s, m.AluResult(), m.Br2())
  {
    match e {
      case Nop =>
      case RegReg(op, _, rs1, rs2) => EvalIsAlu(op, s.regs[rs1], s.regs[rs2]);
      case RegImm(op, _, rs1, imm) => EvalIsAlu(op, s.regs[rs1], m.imm);
      case Lui(_, upper) =>
      case Load(_, _, rs1, imm) => WrapAdd(s.regs[rs1], imm);
      case Store(_, rs1, _, imm) => WrapAdd(s.regs[rs1], imm);
    }
  }

  // ----- memory -----

  lemma MemoryStage(m: Cpu, older: Instr, i: Instr, s: State, unknown: Unread)
    requires Flight(m, older, i, s)
    ensures var n := m.memory.Next(MemRw(m.reg1), MemSizeOf(m.reg1), m.dataW, m.alu, unknown);
      && n.bytes == Exec(i, Exec(older, s)).mem
      && InWriteBack(i, Exec(older, s), n.dataOut, n.aluOut)
  {
    hide Mem.Read, Mem.Write, Isa.LoadLE, Isa.StoreLE, Spoils;
    if i.Store? {
      Mem.WriteIsStore(m.memory.bytes, MemSizeOf(m.reg1), m.alu, m.dataW);
    } else if i.Load? {
      Mem.ReadIsLoad(m.memory.bytes, MemSizeOf(m.reg1), m.alu, unknown);
    }
  }

  // ----- write-back -----

  lemma WriteBackStage(m: Cpu, older: Instr, i: Instr, s: State)
    requires Flight(m, older, i, s)
    ensures m.file.Next(Rd(m.inst), m.DataD(), Rs1(m.inst), Rs2(m.inst), RegWEn(m.reg2)).registers
            == Exec(older, s).regs
  {
    WriteBackValue(m, older, i, s);
  }

  // ----- all stages together -----

  /** The instruction in execute is decoded, its immediate is ready and the registered read
      addresses are its own. */
  predicate Entering(m: Cpu, e: Instr) {
    && Fields(m.reg0, e) && ImmediateRight(e, m.imm)
    && (forall eq, lt :: Operation(m.reg0, e, eq, lt))
    && m.file.delay.intermediate2 == Rd(m.reg1)
    && (Opcode(m.reg0) != INST_NOP ==> m.file.oldAddrA == Rs1(m.reg0) && m.file.oldAddrB == Rs2(m.reg0))
  }

  /** One clock edge: the three instructions move on, and the sequential state advances by the
      oldest of them. */
  lemma FlightNext(p: Program, m: Cpu, older: Instr, i: Instr, e: Instr, s: State, unknown: Unread)
    requires Flight(m, older, i, s) && Entering(m, e)
    requires InRange(e, Exec(i, Exec(older, s))) && !Spoils(e, Exec(i, Exec(older, s)))
    requires !Stalled(e, i, Exec(older, s))
    ensures Flight(m.Next(p, unknown), i, e, Exec(older, s))
  {
    ForwardingExact(m, older, i, e, s);
    ExecuteStage(m, e, Exec(i, Exec(older, s)));
    MemoryStage(m, older, i, s, unknown);
    WriteBackStage(m, older, i, s);
  }

  lemma NoJump(m: Cpu, older: Instr, e: Instr)
    requires m.Valid() && Fields(m.reg2, older) && Fields(m.reg0, e)
    ensures m.NextPc() == m.PcPlus4()
  {
    assert Opcode(m.reg2) == INST_JALR ==> A2Sel(m.reg2);
    assert !PcSel(m.reg0, m.reg2, m.BrEq(), m.BrLt());
  }

  // ----- from execute to the register file -----

  /** Three edges later. */
  function Later(p: Program, m: Cpu, u: (Unread, Unread, Unread)): (r: Cpu)
    requires m.Valid()
    ensures r.Valid()
  {
    m.Next(p, u.0).Next(p, u.1).Next(p, u.2)
  }

  /** The ALU's output in execute is in the destination register three edges later. */
  lemma AluArrives(p: Program, m: Cpu, u: (Unread, Unread, Unread))
    requires m.Valid() && m.file.delay.intermediate1 == Rd(m.reg0)
    requires HasResult(m.reg0) && Opcode(m.reg0) !in {INST_LOAD, INST_JAL, INST_JALR}
    ensures Later(p, m, u).file.registers[Rd(m.reg0)] == m.AluResult()
  {
    hide Mem.Read, Mem.Write, Alu.Result, ImmGen.Immediate;
    var m1 := m.Next(p, u.0);
    var m2 := m1.Next(p, u.1);
    assert m1.alu == m.AluResult() && m1.reg1 == m.reg0 && m1.file.delay.intermediate2 == Rd(m.reg0);
    assert m2.memory.aluOut == m1.alu && m2.reg2 == m.reg0 && m2.file.delay.out == Rd(m.reg0);
    assert m2.DataD() == m.AluResult();
  }

  /** So is what a load reads one edge later, at the address the ALU computed. */
  lemma LoadArrives(p: Program, m: Cpu, u: (Unread, Unread, Unread))
    requires m.Valid() && m.file.delay.intermediate1 == Rd(m.reg0) && Opcode(m.reg0) == INST_LOAD
    ensures Later(p, m, u).file.registers[Rd(m.reg0)]
            == Mem.Read(m.Next(p, u.0).memory.bytes, false, MemSizeOf(m.reg0), m.AluResult(), u.1)
  {
    hide Mem.Read, Mem.Write, Alu.Result, ImmGen.Immediate;
    var m1 := m.Next(p, u.0);
    var m2 := m1.Next(p, u.1);
    assert m1.alu == m.AluResult() && m1.reg1 == m.reg0 && m1.file.delay.intermediate2 == Rd(m.reg0);
    assert m2.reg2 == m.reg0 && m2.file.delay.out == Rd(m.reg0);
    assert m2.DataD() == m2.memory.dataOut;
  }

  /** A load in execute reads the memory that the older instructions leave. */
  lemma LoadedArrives(p: Program, m: Cpu, older: Instr, i: Instr, e: Instr, s: State, u: (Unread, Unread, Unread))
    requires Flight(m, older, i, s) && Fields(m.reg0, e) && m.file.delay.intermediate1 == Rd(m.reg0)
    requires e.Load? && InRange(e, Exec(i, Exec(older, s))) && m.AluResult() == Address(e, Exec(i, Exec(older, s)))
    ensures Later(p, m, u).file.registers[e.rd] == Result(e, Exec(i, Exec(older, s)))
  {
    hide Mem.Read, Mem.Write, Isa.LoadLE, Later, Cpu.AluResult, Exec;
    MemoryStage(m, older, i, s, u.0);
    assert m.Next(p, u.0).memory.bytes == Exec(i, Exec(older, s)).mem;
    FlightSize(m, older, i, s);
    Mem.ReadIsLoad(Exec(i, Exec(older, s)).mem, MemSizeOf(m.reg0), m.AluResult(), u.1);
    LoadArrives(p, m, u);
  }

  lemma FlightSize(m: Cpu, older: Instr, i: Instr, s: State)
    requires Flight(m, older, i, s)
    ensures |Exec(i, Exec(older, s)).mem| == 64
  {
  }

  /** With right operands the result of the instruction in execute arrives, whatever register it
      names: register 0 is an ordinary register. */
  lemma ResultArrives(p: Program, m: Cpu, older: Instr, i: Instr, e: Instr, s: State, u: (Unread, Unread, Unread))
    requires Flight(m, older, i, s) && Entering(m, e) && m.file.delay.intermediate1 == Rd(m.reg0)
    requires HasDest(e) && InRange(e, Exec(i, Exec(older, s))) && OperandsRight(m, e, Exec(i, Exec(older, s)))
    ensures Later(p, m, u).file.registers[e.rd] == Result(e, Exec(i, Exec(older, s)))
  {
    hide Isa.LoadLE, Isa.StoreLE, Later, Cpu.AluResult, Exec;
    ExecuteStage(m, e, Exec(i, Exec(older, s)));
    if e.Load? {
      LoadedArrives(p, m, older, i, e, s, u);
    } else {
      AluArrives(p, m, u);
    }
  }

  /** An immediate instruction right behind the load of its operand computes with the address. */
  lemma LoadUseComputes(p: Program, m: Cpu, older: Instr, i: Instr, e: Instr, s: State, u: (Unread, Unread, Unread))
    requires Flight(m, older, i, s) && Entering(m, e) && m.file.delay.intermediate1 == Rd(m.reg0)
    requires i.Load? && e.RegImm? && e.rs1 == i.rd
    ensures Later(p, m, u).file.registers[e.rd] == Eval(e.op, Address(i, Exec(older, s)), Wrap(e.imm))
  {
    hide Later;
    assert m.Br1() == Address(i, Exec(older, s));
    assert Operation(m.reg0, e, m.BrEq(), m.BrLt());
    EvalIsAlu(e.op, m.Br1(), m.imm);
    AluArrives(p, m, u);
  }
}
