/** The processor as clocked objects: the register file and the data memory are updated in
    place, the other modules' single output registers are fields here. */
module Riscv {
  import opened Words
  import opened Alu
  import opened ImmGen
  import opened ControlLogic
  import opened RegFile
  import opened Mem
  import opened Machine
  import Isa
  import Refinement

  class Processor {
    var pc: Word
    var inst: Word
    var reg0: Word
    var reg1: Word
    var reg2: Word
    var imm: Word
    var dataW: Word
    var alu: Word
    const file: RegisterFile
    const memory: DataMemory

    /** Power-up with arbitrary register contents. */
    constructor (pc: Word, inst: Word, addrA: RegNo, addrB: RegNo, dataW: Word)
      ensures Valid()
      ensures fresh(this) && fresh(Repr())
    {
      this.pc, this.inst, this.dataW := pc, inst, dataW;
      reg0, reg1, reg2, imm, alu := 0, 0, 0, 0, 0;
      file := new RegisterFile(addrA, addrB);
      memory := new DataMemory(63);
    }

    ghost function Repr(): set<object>
      reads this, file
    {
      {this, file, file.registers, file.delay, memory, memory.mem}
    }

    ghost predicate Valid()
      reads this, file, memory
    {
      file.Valid() && memory.mem.Length == 64 && file.registers as object != memory.mem
    }

    function Value(): (m: Cpu)
      requires Valid()
      reads this, file, file.registers, file.delay, memory, memory.mem
      ensures m.Valid()
    {
      Cpu(pc, inst, reg0, reg1, reg2, imm, file.Value(), dataW, alu, memory.Value())
    }

    /** One rising edge of the clock. */
    method Clock(rst: bool, program: Isa.Program, unknown: Unread)
      requires Valid()
      modifies this, file, file.registers, file.delay, memory, memory.mem
      ensures Valid()
      ensures Value() == if rst then old(Value()).Reset() else old(Value()).Next(program, unknown)
    {
      hide Mem.Read, Mem.Write, ImmGen.Immediate;
      hide Cpu.AluResult, Cpu.Br2, Cpu.DataD, Cpu.NextPc;
      // Nets: all children sample them before any register changes.
      var now := Value();
      var dataD, br2, result, pcNext := now.DataD(), now.Br2(), now.AluResult(), now.NextPc();
      var storeData := if rst then now.file.DataB() else br2;

      memory.Clock(rst, MemRw(reg1), MemSizeOf(reg1), dataW, alu, unknown);
      file.Clock(rst, Rd(inst), dataD, Rs1(inst), Rs2(inst), RegWEn(reg2));
      dataW := storeData;
      if rst {
        pc, alu, imm := 0, 0, 0;
        reg2, reg1, reg0, inst := 0, 0, 0, 0;
      } else {
        alu := result;
        imm := Immediate(ImmSelOf(inst), inst);
        reg2 := reg1;
        reg1 := reg0;
        reg0 := inst;
        inst := program[pc / 4 % 512];
        pc := pcNext;
      }
    }

    /** Reset for one edge, then run for one edge per entry of `unknowns`. */
    method ResetAndRun(program: Isa.Program, unknowns: seq<Unread>)
      requires Valid()
      modifies this, file, file.registers, file.delay, memory, memory.mem
      ensures Valid()
      ensures Value() == Refinement.Run(program, old(Value()).Reset(), unknowns)
      ensures Refinement.Good(program, |unknowns| - 2) ==>
        && file.registers[..] == Refinement.At(program, |unknowns| - 4).regs
        && memory.mem[..] == Refinement.At(program, |unknowns| - 3).mem
    {
      hide Cpu.Next, Cpu.Reset;
      Clock(true, program, Unread(0, 0, 0, 0));
      ghost var start := Value();
      for k := 0 to |unknowns|
        invariant Valid() && Value() == Refinement.Run(program, start, unknowns[..k])
      {
        assert unknowns[..k + 1][..k] == unknowns[..k];
        Clock(false, program, unknowns[k]);
      }
      assert unknowns[..|unknowns|] == unknowns;
      if Refinement.Good(program, |unknowns| - 2) {
        Refinement.PipelineRefinesIsa(program, old(Value()), unknowns);
      }
    }
  }
}
