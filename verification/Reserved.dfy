/** Encodings that The RISC-V Instruction Set Manual, Volume I, reserves or that the processor has no
    case for: what one of them leaves behind a run of the subset. They are not refused. */
module Reserved {
  import opened Words
  import opened ControlLogic
  import opened Machine
  import opened Isa
  import opened Refinement
  import opened Stages
  import opened Departures
  import Alu
  import ImmGen
  import Mem

  /** Register instructions: funct7 counts only for funct3 0 and 5, where other values give 0. */
  lemma ReservedRegister(p: Program, m: Cpu, t: nat, u: (Unread, Unread, Unread))
    requires Inv(p, m, t) && Opcode(m.reg0) == INST_REGREG && Funct7(m.reg0) != 0
    requires Funct3(m.reg0) in {1, 4, 6, 7} || (Funct3(m.reg0) in {0, 5} && Funct7(m.reg0) != 32)
    requires Ready(p, t, Rs1(m.reg0)) && Ready(p, t, Rs2(m.reg0))
    ensures var a, b := First(p, m, t), Second(p, m, t);
      Arrived(p, m, u) ==
      match Funct3(m.reg0)
      case 1 => ShiftLeft(a, b)
      case 4 => Words.Xor(a, b)
      case 6 => Words.Or(a, b)
      case 7 => Words.And(a, b)
      case _ => 0
  {
    hide Inv, Cpu.Br1, Cpu.Br2, Ready, Later, ShiftLeft, Words.Xor, Words.Or, Words.And;
    Operands(p, m, t);
    AluArrives(p, m, u);
  }

  /** SLLI shifts by its low five bits whatever funct7 says. */
  lemma ReservedShift(p: Program, m: Cpu, t: nat, u: (Unread, Unread, Unread))
    requires Inv(p, m, t) && Opcode(m.reg0) == INST_REGIMM && Funct3(m.reg0) == 1 && Ready(p, t, Rs1(m.reg0))
    ensures Arrived(p, m, u) == ShiftLeft(First(p, m, t), Rs2(m.reg0))
  {
    hide Inv, Cpu.Br1, Cpu.Br2, Ready, Later, ShiftLeft, ImmI;
    Operands(p, m, t);
    Immediate12(p, m, t);
    AluArrives(p, m, u);
    LowBits(m.reg0);
    SameShift(First(p, m, t), Wrap(ImmI(m.reg0)), Rs2(m.reg0));
  }

  lemma SameShift(a: Word, b: Word, n: RegNo)
    requires b % 32 == n
    ensures ShiftLeft(a, b) == ShiftLeft(a, n)
  {
    hide Words.Pow2, Words.Wrap;
    assert n % 32 == n;
  }

  lemma LowBits(w: Word)
    ensures Wrap(ImmI(w)) % 32 == Rs2(w)
  {
  }

  /** Loads with funct3 3, 6 and 7 load one byte, without a sign. */
  lemma ReservedLoad(p: Program, m: Cpu, t: nat, u: (Unread, Unread, Unread))
    requires Inv(p, m, t) && Opcode(m.reg0) == INST_LOAD && Funct3(m.reg0) in {3, 6, 7} && Ready(p, t, Rs1(m.reg0))
    requires Wrap(First(p, m, t) + ImmI(m.reg0)) < 64
    ensures Arrived(p, m, u) == At(p, t - 2).mem[Wrap(First(p, m, t) + ImmI(m.reg0))]
  {
    hide Mem.Read, LoadLE, Inv, Ready, Later, Cpu.Br1, Cpu.Br2, ImmI;
    var a, mem := Wrap(First(p, m, t) + ImmI(m.reg0)), At(p, t - 2).mem;
    Operands(p, m, t);
    Immediate12(p, m, t);
    WrapAdd(First(p, m, t), ImmI(m.reg0));
    LoadArrives(p, m, u);
    MemoryInRun(p, m, t, u.0);
    Mem.ReadIsLoad(mem, BYTE, a, u.1);
    Mem.LoadUnrolled(mem, a, 1);
  }

  /** Stores with funct3 above 2 other than 5 store one byte, and with 5 a half-word. */
  lemma ReservedStore(p: Program, m: Cpu, t: nat, u: (Unread, Unread, Unread))
    requires Inv(p, m, t) && Opcode(m.reg0) == INST_STORE && Funct3(m.reg0) > 2
    requires Ready(p, t, Rs1(m.reg0)) && Ready(p, t, Rs2(m.reg0))
    requires Wrap(First(p, m, t) + ImmS(m.reg0)) + (if Funct3(m.reg0) == 5 then 2 else 1) <= 64
    ensures m.Valid()
    ensures m.Next(p, u.0).Next(p, u.1).memory.bytes ==
      StoreLE(At(p, t - 2).mem, Wrap(First(p, m, t) + ImmS(m.reg0)), if Funct3(m.reg0) == 5 then 2 else 1,
              Second(p, m, t))
  {
    hide Mem.Read, Mem.Write, StoreLE, Inv, Ready, Cpu.Br1, Cpu.Br2, ImmS, ImmGen.Immediate;
    var a, mem := Wrap(First(p, m, t) + ImmS(m.reg0)), At(p, t - 2).mem;
    Operands(p, m, t);
    StoreImmediate(p, m, t);
    WrapAdd(First(p, m, t), ImmS(m.reg0));
    MemoryInRun(p, m, t, u.0);
    var m1 := m.Next(p, u.0);
    assert m1.reg1 == m.reg0 && m1.alu == m.AluResult() == a && m1.dataW == Second(p, m, t);
    Mem.WriteIsStore(mem, MemSizeOf(m.reg0), a, Second(p, m, t));
  }

  lemma StoreImmediate(p: Program, m: Cpu, t: nat)
    requires Inv(p, m, t) && Opcode(m.reg0) == INST_STORE
    ensures m.imm == Wrap(ImmS(m.reg0))
  {
    hide Stages.Flight, Good;
    TopBits(m.reg0);
    SignFill(m.reg0, Funct7(m.reg0) * 32 + Rd(m.reg0));
  }

  /** Every opcode without a case (FENCE, ECALL, EBREAK and the CSR instructions among them) writes 0 to
      the register its bits 11 to 7 number. */
  lemma OtherOpcode(p: Program, m: Cpu, t: nat, u: (Unread, Unread, Unread))
    requires Inv(p, m, t)
    requires Opcode(m.reg0) !in {0x00, 0x03, 0x13, 0x17, 0x23, 0x33, 0x37, 0x63, 0x67, 0x6f}
    ensures m.Valid() && Arrived(p, m, u) == 0
  {
    hide Inv, Cpu.Br1, Cpu.Br2, Ready, Later;
    Operands(p, m, t);
    AluArrives(p, m, u);
  }
}
