/** The pipeline refines the sequential ISA. In cycle t after reset the fetched instruction is
    number t - 1, and execute, memory and write-back hold numbers t - 2, t - 3 and t - 4; a
    negative number is a NOP of the empty pipeline. Registers are those of the ISA just before
    the instruction in write-back, memory that of the ISA just before the one in memory. */
module Refinement {
  import opened Options
  import opened Words
  import opened ControlLogic
  import opened RegFile
  import opened Isa
  import opened Machine
  import opened Stages
  import ImmGen

  // ----- the programs the theorem is about -----

  /** The younger instruction needs what the older one is still loading. */
  predicate LoadUse(older: Instr, younger: Instr) {
    older.Load? &&
    ((UsesFirst(younger) && younger.rs1 == older.rd) || (UsesSecond(younger) && younger.rs2 == older.rd))
  }

  function Insn(p: Program, k: int): Instr {
    var i := Decode(Fetched(p, k));
    if i.Some? then i.value else Nop
  }

  function At(p: Program, k: int): (s: State)
    ensures s.Valid() && |s.mem| == 64
  {
    var s := After(p, k);
    if s.Some? then s.value else Init()
  }

  /** Instruction k is in the subset, writes nothing but zero to x0, and needs nothing that the one
      before it is still loading, unless that is the address of the load itself. */
  predicate Safe(p: Program, k: int) {
    && Decode(Fetched(p, k)).Some?
    && !Spoils(Insn(p, k), At(p, k))
    && !Stalled(Insn(p, k), Insn(p, k - 1), At(p, k - 1))
  }

  /** What can be seen without running the program: no x0 destination and no load-use. */
  lemma SafeByLooks(p: Program, k: int)
    requires Decode(Fetched(p, k)).Some? && !WritesZero(Insn(p, k)) && !LoadUse(Insn(p, k - 1), Insn(p, k))
    ensures Safe(p, k)
  {
  }

  /** The ISA runs the first n instructions without a fault, and all of them are safe. */
  predicate Good(p: Program, n: int) {
    After(p, n).Some? && forall k :: 0 <= k < n ==> Safe(p, k)
  }

  lemma GoodPrefix(p: Program, j: int, k: int)
    requires j <= k && Good(p, k)
    ensures Good(p, j)
  {
    AfterPrefix(p, j, k);
  }

  /** One step of the ISA, also through the NOPs before the first instruction. */
  lemma GoodStep(p: Program, k: int)
    requires Good(p, k + 1)
    ensures Good(p, k) && Safe(p, k) && Decode(Fetched(p, k)) == Some(Insn(p, k))
    ensures InRange(Insn(p, k), At(p, k)) && At(p, k + 1) == Exec(Insn(p, k), At(p, k))
  {
    GoodPrefix(p, k, k + 1);
    if k < 0 {
      assert Decode(0) == Some(Nop);
    }
  }

  // ----- the invariant -----

  predicate Occupied(p: Program, m: Cpu, t: nat) {
    && m.pc == Wrap(4 * t)
    && m.inst == Fetched(p, t - 1) && m.reg0 == Fetched(p, t - 2)
    && m.reg1 == Fetched(p, t - 3) && m.reg2 == Fetched(p, t - 4)
    && m.imm == ImmGen.Immediate(ImmSelOf(m.reg0), m.reg0)
    && m.file.delay == Delay(Rd(m.reg0), Rd(m.reg1), Rd(m.reg2))
    && (Opcode(m.reg0) != INST_NOP ==> m.file.oldAddrA == Rs1(m.reg0) && m.file.oldAddrB == Rs2(m.reg0))
  }

  predicate Inv(p: Program, m: Cpu, t: nat) {
    && Good(p, t - 2)
    && Occupied(p, m, t)
    && Flight(m, Insn(p, t - 4), Insn(p, t - 3), At(p, t - 4))
  }

  lemma ResetEstablishes(p: Program, m: Cpu)
    requires m.Valid()
    ensures Inv(p, m.Reset(), 0)
  {
    assert Decode(0) == Some(Nop);
  }

  lemma Enters(p: Program, m: Cpu, t: nat)
    requires Occupied(p, m, t) && Decode(m.reg0).Some?
    ensures Entering(m, Insn(p, t - 2))
  {
    var e := Insn(p, t - 2);
    FieldsOf(m.reg0, e);
    ImmediateOf(m.reg0, e);
    forall eq, lt ensures Operation(m.reg0, e, eq, lt) {
      OperationOf(m.reg0, e, eq, lt);
    }
  }

  lemma PcArithmetic(t: nat)
    ensures Wrap(4 * t) / 4 % 512 == t % 512
    ensures Wrap(Wrap(4 * t) + 4) == Wrap(4 * (t + 1))
  {
    var q, r := t / 0x4000_0000, t % 0x4000_0000;
    assert 4 * t == 0x1_0000_0000 * q + 4 * r;
    ModUnique(4 * t, 0x1_0000_0000, q, 4 * r);
    var h, l := r / 512, r % 512;
    assert t == 512 * (0x20_0000 * q + h) + l;
    ModUnique(t, 512, 0x20_0000 * q + h, l);
  }

  lemma OccupiedNext(p: Program, m: Cpu, t: nat, unknown: Unread)
    requires m.Valid() && Occupied(p, m, t) && m.NextPc() == m.PcPlus4()
    ensures Occupied(p, m.Next(p, unknown), t + 1)
  {
    PcArithmetic(t);
  }

  /** One clock edge keeps the invariant. */
  lemma NextPreserves(p: Program, m: Cpu, t: nat, unknown: Unread)
    requires Inv(p, m, t) && Good(p, t - 1)
    ensures Inv(p, m.Next(p, unknown), t + 1)
  {
    hide Isa.Decode, Isa.After, Isa.Exec;
    var older, i, e, s := Insn(p, t - 4), Insn(p, t - 3), Insn(p, t - 2), At(p, t - 4);
    GoodStep(p, t - 2);
    GoodStep(p, t - 3);
    GoodPrefix(p, t - 3, t - 1);
    GoodStep(p, t - 4);
    Enters(p, m, t);
    FlightNext(p, m, older, i, e, s, unknown);
    NoJump(m, older, e);
    OccupiedNext(p, m, t, unknown);
  }

  // ----- whole runs -----

  /** The processor after one clock edge per entry, each entry being what an out-of-range read
      returns in that cycle. */
  function Run(p: Program, m: Cpu, unknowns: seq<Unread>): (r: Cpu)
    requires m.Valid()
    ensures r.Valid()
  {
    if unknowns == [] then m
    else Run(p, m, unknowns[..|unknowns| - 1]).Next(p, unknowns[|unknowns| - 1])
  }

  lemma {:induction false} RunInvariant(p: Program, m: Cpu, unknowns: seq<Unread>)
    requires m.Valid() && Good(p, |unknowns| - 2)
    ensures Inv(p, Run(p, m.Reset(), unknowns), |unknowns|)
  {
    hide Cpu.Next, Cpu.Reset, Inv;
    if unknowns == [] {
      ResetEstablishes(p, m);
    } else {
      var before := unknowns[..|unknowns| - 1];
      GoodPrefix(p, |before| - 2, |unknowns| - 2);
      RunInvariant(p, m, before);
      NextPreserves(p, Run(p, m.Reset(), before), |before|, unknowns[|before|]);
    }
  }

  /** From any state, reset and then t clock edges: registers and memory are those of the
      sequential machine, whatever words follow the first t - 2 and whatever unknown reads give. */
  lemma PipelineRefinesIsa(p: Program, m: Cpu, unknowns: seq<Unread>)
    requires m.Valid() && Good(p, |unknowns| - 2)
    ensures var t := |unknowns|; var r := Run(p, m.Reset(), unknowns);
      && After(p, t - 4) == Some(State(r.file.registers, At(p, t - 4).mem))
      && After(p, t - 3) == Some(State(At(p, t - 3).regs, r.memory.bytes))
      && r.file.registers[0] == 0 && r.pc == Wrap(4 * t)
  {
    RunInvariant(p, m, unknowns);
    GoodPrefix(p, |unknowns| - 3, |unknowns| - 2);
    GoodStep(p, |unknowns| - 4);
  }

  /** Forwarding over whole runs: before every edge each register operand of the instruction in
      execute is that register after all older instructions have completed, exactly unless a load
      of it is in the memory stage and loads something else than its own address. */
  lemma RunForwards(p: Program, m: Cpu, unknowns: seq<Unread>)
    requires m.Valid() && Good(p, |unknowns| - 2) && Decode(Fetched(p, |unknowns| - 2)).Some?
    ensures var t := |unknowns|; var r := Run(p, m.Reset(), unknowns);
      && (OperandsRight(r, Insn(p, t - 2), At(p, t - 2)) <==> !Stalled(Insn(p, t - 2), Insn(p, t - 3), At(p, t - 3)))
      && (!LoadUse(Insn(p, t - 3), Insn(p, t - 2)) ==> OperandsRight(r, Insn(p, t - 2), At(p, t - 2)))
  {
    hide Isa.Decode, Isa.After, Isa.Exec;
    var t, r := |unknowns|, Run(p, m.Reset(), unknowns);
    RunInvariant(p, m, unknowns);
    GoodStep(p, t - 3);
    GoodStep(p, t - 4);
    Enters(p, r, t);
    ForwardingExact(r, Insn(p, t - 4), Insn(p, t - 3), Insn(p, t - 2), At(p, t - 4));
  }

  // ----- the conditions are needed -----

  /** `lw r1, 0(r0)` then `addi r2, r1, 0`: a load and its immediate use. */
  const LOAD_USE: Program := [0x0000_2083, 0x0000_8113] + seq(510, _ => 0)

  lemma LoadUseDecoded()
    ensures Insn(LOAD_USE, 0) == Load(4, 1, 0, 0) && Insn(LOAD_USE, 1) == RegImm(Add, 2, 1, 0)
    ensures Good(LOAD_USE, 1) && !Safe(LOAD_USE, 1)
    ensures After(LOAD_USE, 2).Some? && After(LOAD_USE, 2).value.regs[2] == 0xffff_ffff
  {
    var s := Init();
    assert Decode(0x0000_2083) == Some(Load(4, 1, 0, 0));
    assert Decode(0x0000_8113) == Some(RegImm(Add, 2, 1, 0));
    assert LoadLE(s.mem, 0, 4) == 0xffff_ffff by {
      assert LoadLE(s.mem, 3, 1) == 0xff;
      assert LoadLE(s.mem, 2, 2) == 0xffff;
      assert LoadLE(s.mem, 1, 3) == 0xff_ffff;
    }
    assert After(LOAD_USE, 0) == Some(s);
    assert After(LOAD_USE, 1) == Some(Exec(Load(4, 1, 0, 0), s));
    assert After(LOAD_USE, 2) == Some(Exec(RegImm(Add, 2, 1, 0), Exec(Load(4, 1, 0, 0), s)));
    assert Decode(0) == Some(Nop);
  }

  lemma RunOneMore(p: Program, m: Cpu, u: seq<Unread>, k: nat)
    requires m.Valid() && k < |u|
    ensures Run(p, m, u[..k + 1]) == Run(p, m, u[..k]).Next(p, u[k])
  {
    hide Cpu.Next;
    assert u[..k + 1][..k] == u[..k];
  }

  lemma LoadUseLast(m3: Cpu, u: (Unread, Unread, Unread))
    requires Inv(LOAD_USE, m3, 3)
    ensures Later(LOAD_USE, m3, u).file.registers[2] == 0
  {
    hide Isa.Decode, Cpu.Next, Isa.LoadLE, Later;
    LoadUseDecoded();
    Enters(LOAD_USE, m3, 3);
    LoadUseComputes(LOAD_USE, m3, Nop, Load(4, 1, 0, 0), RegImm(Add, 2, 1, 0), Init(), u);
  }

  /** The load-use program is run wrongly: the ISA leaves 0xffffffff in r2, the pipeline 0. */
  lemma LoadUseBreaks(m: Cpu, u: seq<Unread>)
    requires m.Valid() && |u| == 6
    ensures After(LOAD_USE, 2).Some? && After(LOAD_USE, 2).value.regs[2] == 0xffff_ffff
    ensures Run(LOAD_USE, m.Reset(), u).file.registers[2] == 0
  {
    hide Isa.Decode, Cpu.Next, Inv, Safe;
    LoadUseDecoded();
    RunInvariant(LOAD_USE, m, u[..3]);
    LoadUseLast(Run(LOAD_USE, m.Reset(), u[..3]), (u[3], u[4], u[5]));
    RunOneMore(LOAD_USE, m.Reset(), u, 3);
    RunOneMore(LOAD_USE, m.Reset(), u, 4);
    RunOneMore(LOAD_USE, m.Reset(), u, 5);
    assert u[..6] == u;
  }

  /** Every result arrives, also one for x0: register 0 then holds it, and agrees with the ISA's
      hardwired zero exactly when it is zero. */
  lemma ZeroBreaks(p: Program, m: Cpu, t: nat, u: (Unread, Unread, Unread))
    requires Inv(p, m, t) && Decode(m.reg0).Some? && WritesZero(Insn(p, t - 2)) && InRange(Insn(p, t - 2), At(p, t - 2))
    requires !Stalled(Insn(p, t - 2), Insn(p, t - 3), At(p, t - 3))
    ensures var r := Later(p, m, u).file.registers[0];
      && r == Result(Insn(p, t - 2), At(p, t - 2))
      && (r == Exec(Insn(p, t - 2), At(p, t - 2)).regs[0] <==> Result(Insn(p, t - 2), At(p, t - 2)) == 0)
  {
    hide Isa.Decode, Isa.After, Cpu.Next, Isa.Result, Later;
    var older, i, e, s := Insn(p, t - 4), Insn(p, t - 3), Insn(p, t - 2), At(p, t - 4);
    GoodStep(p, t - 3);
    GoodStep(p, t - 4);
    Enters(p, m, t);
    ForwardingExact(m, older, i, e, s);
    ResultArrives(p, m, older, i, e, s, u);
  }

  /** `addi r0, r0, 1`. */
  const ZERO_WRITE: Program := [0x0010_0013] + seq(511, _ => 0)

  lemma ZeroWriteDecoded()
    ensures Insn(ZERO_WRITE, 0) == RegImm(Add, 0, 0, 1) && Good(ZERO_WRITE, 0) && !Safe(ZERO_WRITE, 0)
    ensures After(ZERO_WRITE, 1) == Some(Init()) && Decode(ZERO_WRITE[0]).Some?
    ensures Insn(ZERO_WRITE, -1) == Nop && At(ZERO_WRITE, 0) == Init()
  {
    assert Decode(0x0010_0013) == Some(RegImm(Add, 0, 0, 1));
    assert After(ZERO_WRITE, 0) == Some(Init());
    assert After(ZERO_WRITE, 1) == Some(Exec(RegImm(Add, 0, 0, 1), Init()));
    assert Decode(0) == Some(Nop);
  }

  lemma ZeroWriteLast(m2: Cpu, u: (Unread, Unread, Unread))
    requires Inv(ZERO_WRITE, m2, 2)
    ensures Later(ZERO_WRITE, m2, u).file.registers[0] == 1
  {
    hide Isa.Decode, Cpu.Next, Later, Isa.After;
    ZeroWriteDecoded();
    ZeroBreaks(ZERO_WRITE, m2, 2, u);
  }

  /** It is run wrongly: the ISA keeps register 0 at zero, the pipeline puts 1 there. */
  lemma ZeroWriteBreaks(m: Cpu, u: seq<Unread>)
    requires m.Valid() && |u| == 5
    ensures After(ZERO_WRITE, 1).Some? && After(ZERO_WRITE, 1).value.regs[0] == 0
    ensures Run(ZERO_WRITE, m.Reset(), u).file.registers[0] == 1
  {
    hide Isa.Decode, Cpu.Next, Inv, Safe;
    ZeroWriteDecoded();
    RunInvariant(ZERO_WRITE, m, u[..2]);
    ZeroWriteLast(Run(ZERO_WRITE, m.Reset(), u[..2]), (u[2], u[3], u[4]));
    RunOneMore(ZERO_WRITE, m.Reset(), u, 2);
    RunOneMore(ZERO_WRITE, m.Reset(), u, 3);
    RunOneMore(ZERO_WRITE, m.Reset(), u, 4);
    assert u[..5] == u;
  }
}
