/** The sequential reference: the part of RV32I that the processor and the assembler agree on,
    after The RISC-V Instruction Set Manual, Volume I, sections 2.2-2.4 and 2.6. Register 0 is
    hardwired to zero, instructions complete one at a time, and an access outside the data
    memory is a fault. The all-zero word is the repository's NOP. */
module Isa {
  import opened Options
  import opened Words

  datatype Arith = Add | Sub | And | Or | Xor | Sll | Srl

  datatype Instr =
    | Nop
    | RegReg(op: Arith, rd: RegNo, rs1: RegNo, rs2: RegNo)
    | RegImm(op: Arith, rd: RegNo, rs1: RegNo, imm: int)
    | Lui(rd: RegNo, upper: int)
    | Load(size: nat, rd: RegNo, rs1: RegNo, imm: int)
    | Store(size: nat, rs1: RegNo, rs2: RegNo, imm: int)

  // ----- immediates (section 2.3) -----

  function SignExtend12(x: int): int {
    if x >= 2048 then x - 4096 else x
  }

  function ImmI(w: Word): int { SignExtend12(w / 1048576) }
  function ImmS(w: Word): int { SignExtend12(Funct7(w) * 32 + Rd(w)) }
  function ImmU(w: Word): int { w / 4096 }

  /** Branch and jump offsets: bit 0 is zero. */
  function ImmB(w: Word): int {
    w / 128 % 2 * 2048 + w / 33554432 % 64 * 32 + w / 256 % 16 * 2 - w / 0x8000_0000 * 4096
  }

  function ImmJ(w: Word): int {
    w / 4096 % 256 * 4096 + w / 1048576 % 2 * 2048 + w / 2097152 % 1024 * 2 - w / 0x8000_0000 * 1048576
  }

  // ----- decoding -----

  function DecodeRegReg(w: Word): Option<Instr> {
    var f := (Funct7(w), Funct3(w));
    var op :=
      if f == (0, 0) then Some(Add)
      else if f == (32, 0) then Some(Sub)
      else if f == (0, 1) then Some(Sll)
      else if f == (0, 4) then Some(Xor)
      else if f == (0, 5) then Some(Srl)
      else if f == (0, 6) then Some(Or)
      else if f == (0, 7) then Some(And)
      else None;
    if op.Some? then Some(RegReg(op.value, Rd(w), Rs1(w), Rs2(w))) else None
  }

  function DecodeRegImm(w: Word): Option<Instr> {
    match Funct3(w)
    case 0 => Some(RegImm(Add, Rd(w), Rs1(w), ImmI(w)))
    case 1 => if Funct7(w) == 0 then Some(RegImm(Sll, Rd(w), Rs1(w), Rs2(w))) else None
    case 4 => Some(RegImm(Xor, Rd(w), Rs1(w), ImmI(w)))
    case 6 => Some(RegImm(Or, Rd(w), Rs1(w), ImmI(w)))
    case 7 => Some(RegImm(And, Rd(w), Rs1(w), ImmI(w)))
    case _ => None
  }

  /** The unsigned and full-width loads; LB and LH are outside the subset. */
  function DecodeLoad(w: Word): Option<Instr> {
    match Funct3(w)
    case 2 => Some(Load(4, Rd(w), Rs1(w), ImmI(w)))
    case 4 => Some(Load(1, Rd(w), Rs1(w), ImmI(w)))
    case 5 => Some(Load(2, Rd(w), Rs1(w), ImmI(w)))
    case _ => None
  }

  function DecodeStore(w: Word): Option<Instr> {
    match Funct3(w)
    case 0 => Some(Store(1, Rs1(w), Rs2(w), ImmS(w)))
    case 1 => Some(Store(2, Rs1(w), Rs2(w), ImmS(w)))
    case 2 => Some(Store(4, Rs1(w), Rs2(w), ImmS(w)))
    case _ => None
  }

  function Decode(w: Word): Option<Instr> {
    if w == 0 then Some(Nop)
    else match Opcode(w)
    case 0x33 => DecodeRegReg(w)
    case 0x13 => DecodeRegImm(w)
    case 0x37 => Some(Lui(Rd(w), ImmU(w)))
    case 0x03 => DecodeLoad(w)
    case 0x23 => DecodeStore(w)
    case _ => None
  }

  // ----- execution -----

  datatype State = State(regs: seq<Word>, mem: seq<Byte>) {
    predicate Valid() {
      |regs| == 32 && regs[0] == 0
    }
  }

  function Eval(op: Arith, a: Word, b: Word): Word {
    match op
    case Add => Wrap(a + b)
    case Sub => Wrap(a - b)
    case And => Words.And(a, b)
    case Or => Words.Or(a, b)
    case Xor => Words.Xor(a, b)
    case Sll => ShiftLeft(a, b)
    case Srl => ShiftRight(a, b)
  }

  /** The `n` bytes from address `a`, least significant first. */
  function LoadLE(mem: seq<Byte>, a: nat, n: nat): (v: nat)
    requires a + n <= |mem|
    decreases n
  {
    if n == 0 then 0 else mem[a] + 256 * LoadLE(mem, a + 1, n - 1)
  }

  /** The memory with the low `n` bytes of `v` at address `a`, least significant first. */
  function StoreLE(mem: seq<Byte>, a: nat, n: nat, v: nat): (m: seq<Byte>)
    requires a + n <= |mem|
    ensures |m| == |mem|
    decreases n
  {
    if n == 0 then mem else StoreLE(mem[a := v % 256], a + 1, n - 1, v / 256)
  }

  function Address(i: Instr, s: State): Word
    requires i.Load? || i.Store?
    requires s.Valid()
  {
    Wrap(s.regs[i.rs1] + i.imm)
  }

  predicate InRange(i: Instr, s: State)
    requires s.Valid()
  {
    i.Load? || i.Store? ==> Address(i, s) + i.size <= |s.mem|
  }

  predicate HasDest(i: Instr) {
    i.RegReg? || i.RegImm? || i.Lui? || i.Load?
  }

  /** What the instruction writes to its destination register. */
  function Result(i: Instr, s: State): Word
    requires HasDest(i) && s.Valid() && InRange(i, s)
  {
    match i
    case RegReg(op, _, rs1, rs2) => Eval(op, s.regs[rs1], s.regs[rs2])
    case RegImm(op, _, rs1, imm) => Eval(op, s.regs[rs1], Wrap(imm))
    case Lui(_, upper) => Wrap(upper * 4096)
    case Load(size, _, _, _) => Wrap(LoadLE(s.mem, Address(i, s), size))
  }

  function Exec(i: Instr, s: State): (r: State)
    requires s.Valid() && InRange(i, s)
    ensures r.Valid() && |r.mem| == |s.mem|
  {
    if HasDest(i) then
      if i.rd == 0 then s else s.(regs := s.regs[i.rd := Result(i, s)])
    else if i.Store? then
      s.(mem := StoreLE(s.mem, Address(i, s), i.size, s.regs[i.rs2]))
    else s
  }

  // ----- runs -----

  /** The instruction memory: 512 words behind a 9-bit index (rtl/imem.sv). */
  type Program = p: seq<Word> | |p| == 512 witness seq(512, _ => 0)

  /** The k-th instruction of a branch-free run; before the first one the pipeline holds NOPs. */
  function Fetched(p: Program, k: int): Word {
    if k < 0 then 0 else p[k % 512]
  }

  function Init(): (s: State)
    ensures s.Valid() && |s.mem| == 64
  {
    State(seq(32, _ => 0), seq(64, _ => 0xff))
  }

  function StepIsa(w: Word, s: State): (r: Option<State>)
    requires s.Valid()
    ensures r.Some? ==> r.value.Valid() && |r.value.mem| == |s.mem|
  {
    var i := Decode(w);
    if i.Some? && InRange(i.value, s) then Some(Exec(i.value, s)) else None
  }

  /** The state after the first k instructions, unless one of them is outside the subset or faults. */
  function After(p: Program, k: int): (r: Option<State>)
    ensures r.Some? ==> r.value.Valid() && |r.value.mem| == 64
    decreases if k < 0 then 0 else k
  {
    if k <= 0 then Some(Init())
    else
      var before := After(p, k - 1);
      if before.None? then None else StepIsa(Fetched(p, k - 1), before.value)
  }

  lemma {:induction false} AfterPrefix(p: Program, j: int, k: int)
    requires j <= k && After(p, k).Some?
    ensures After(p, j).Some?
    decreases k - j
  {
    if j < k {
      if k > 0 {
        AfterPrefix(p, j, k - 1);
      }
    }
  }
}
