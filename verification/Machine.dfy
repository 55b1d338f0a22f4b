/** The whole processor as a value: every clocked register of rtl/riscv.sv and its children, the
    nets between them, and the state one rising edge leads to. */
module Machine {
  import opened Words
  import opened Alu
  import opened ImmGen
  import opened ControlLogic
  import opened RegFile
  import opened Mem
  import Isa

  /** `inst` is imem's output register, `reg0`-`reg2` control_logic's instruction registers,
      `imm`, `dataW`, `alu` and `pc` the output registers of imm_gen, opti, alu and wb. */
  datatype Cpu = Cpu(pc: Word, inst: Word, reg0: Word, reg1: Word, reg2: Word, imm: Word,
                     file: File, dataW: Word, alu: Word, memory: Memory) {

    predicate Valid() {
      file.Valid() && |memory.bytes| == 64
    }

    // ----- nets -----

    function PcPlus4(): Word {
      Wrap(pc + 4)
    }

    function Wb(): Word {
      if WbSel1(reg2) then memory.aluOut else memory.dataOut
    }

    function DataD(): Word {
      if WbSel2(reg2) then PcPlus4() else Wb()
    }

    function Select(source: Source, register: Word): Word {
      match source
      case FromRegister => register
      case FromAlu => alu
      case FromWriteBack => DataD()
    }

    function Br1(): Word
      requires Valid()
    {
      Select(A1Sel(reg0, reg1, reg2), file.DataA())
    }

    function Br2(): Word
      requires Valid()
    {
      Select(B1Sel(reg0, reg1, reg2), file.DataB())
    }

    predicate BrEq()
      requires Valid()
    {
      Br1() == Br2()
    }

    /** branch_comp compares as signed when `BrUn` is high and as unsigned when it is low. */
    predicate BrLt()
      requires Valid()
    {
      if BrUn(reg0) then Signed(Br1()) < Signed(Br2()) else Br1() < Br2()
    }

    function AluResult(): Word
      requires Valid()
    {
      Result(AluOpOf(reg0, BrEq(), BrLt()),
             if A2Sel(reg0) then pc else Br1(),
             if B2Sel(reg0) then imm else Br2())
    }

    function NextPc(): Word
      requires Valid()
    {
      if PcSel(reg0, reg2, BrEq(), BrLt()) then Wb() else PcPlus4()
    }

    // ----- the rising edge -----

    /** Reset low. `unknown` is what a read outside the data memory returns in this cycle. */
    function Next(program: Isa.Program, unknown: Unread): (m: Cpu)
      requires Valid()
      ensures m.Valid()
    {
      Cpu(NextPc(),
          program[pc / 4 % 512],
          inst, reg0, reg1,
          Immediate(ImmSelOf(inst), inst),
          file.Next(Rd(inst), DataD(), Rs1(inst), Rs2(inst), RegWEn(reg2)),
          Br2(),
          AluResult(),
          memory.Next(MemRw(reg1), MemSizeOf(reg1), dataW, alu, unknown))
    }

    /** Reset high: every control signal has its default, so the store-data register takes the
        register file's second output. */
    function Reset(): (m: Cpu)
      requires Valid()
      ensures m.Valid()
    {
      Cpu(0, 0, 0, 0, 0, 0, file.Reset(Rs1(inst), Rs2(inst)), file.DataB(), 0, memory.Reset())
    }
  }

  function Signed(w: Word): int {
    if w >= 0x8000_0000 then w - 0x1_0000_0000 else w
  }
}
