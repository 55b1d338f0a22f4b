/** The combinational part of the ALU (rtl/alu.sv); its result register is a field of Riscv. */
module Alu {
  import opened Words

  datatype AluOp = ADD | AND | SLL | SRL | OR | XOR | OUT_ONE | OUT_ZERO | SRA | LUI | SUB | AUIPC

  function Result(op: AluOp, a: Word, b: Word): Word {
    match op
    case ADD => Wrap(a + b)
    case SUB => Wrap(a - b)
    case AUIPC => Wrap((a + b) * 4096)        // `+` binds tighter than `<<`
    case AND => And(a, b)
    case OR => Or(a, b)
    case XOR => Xor(a, b)
    case SLL => ShiftLeft(a, b)
    case SRL => ShiftRight(a, b)
    case SRA => ShiftRight(a, b)              // `>>>` on an unsigned operand
    case LUI => Wrap(b * 4096)
    case OUT_ONE => 1                         // byte_one is a one-bit wire
    case OUT_ZERO => 0
  }
}
