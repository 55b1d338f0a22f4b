/** The rule file row by row: which rule belongs to which mnemonic (compilateur/database.txt). */
module RuleOrder {
  import opened RuleFile
  import opened AsmLine
  import opened Spelling
  import Grammar

  /** The number of a mnemonic's rule. */
  function Position(m: Mnemonic): nat {
    match m
    case NOP => 5 case ADDI => 6 case ADD => 7 case ANDI => 8 case AND => 9 case BEQ => 10 case SLLI => 11
    case SRLI => 12 case SLL => 13 case SRL => 14 case ORI => 15 case OR => 16 case BNE => 17 case XORI => 18
    case XOR => 19 case BGEU => 20 case BGE => 21 case SLTIU => 22 case SLTI => 23 case SLTU => 24 case SLT => 25
    case SRAI => 26 case SRA => 27 case LUI => 28 case AUIPC => 29 case BLTU => 30 case BLT => 31 case LBU => 32
    case LHU => 33 case LB => 34 case LH => 35 case LW => 36 case SB => 37 case SW => 38 case SH => 39
    case JALR => 40 case JAL => 41 case SUB => 42
    case UNKNOWN => 43
  }

  /** The mnemonic of a rule. */
  function Ruled(k: nat): Mnemonic {
    match k
    case 5 => Mnemonic.NOP case 6 => ADDI case 7 => ADD case 8 => ANDI case 9 => AND case 10 => BEQ case 11 => SLLI
    case 12 => SRLI case 13 => SLL case 14 => SRL case 15 => ORI case 16 => OR case 17 => BNE case 18 => XORI
    case 19 => XOR case 20 => BGEU case 21 => BGE case 22 => SLTIU case 23 => SLTI case 24 => SLTU case 25 => SLT
    case 26 => SRAI case 27 => SRA case 28 => LUI case 29 => AUIPC case 30 => BLTU case 31 => BLT case 32 => LBU
    case 33 => LHU case 34 => LB case 35 => LH case 36 => LW case 37 => SB case 38 => SW case 39 => SH
    case 40 => JALR case 41 => JAL case 42 => SUB
    case _ => UNKNOWN
  }

  lemma Sizes()
    ensures |LAYOUT_RULES| == 5 && |FIRST_INSN_RULES| == 19 && |MORE_INSN_RULES| == 19
    ensures |PSEUDO_RULES| == 4 && |OPERAND_RULES| == 8 && |PAREN_RULES| == 2 && |RULES| == 57
  {
  }

  lemma Parts(k: nat)
    requires k < |RULES|
    ensures |RULES| == 57
    ensures k < 5 ==> k < |LAYOUT_RULES| && RULES[k] == LAYOUT_RULES[k]
    ensures 5 <= k < 24 ==> k - 5 < |FIRST_INSN_RULES| && RULES[k] == FIRST_INSN_RULES[k - 5]
    ensures 24 <= k < 43 ==> k - 24 < |MORE_INSN_RULES| && RULES[k] == MORE_INSN_RULES[k - 24]
    ensures 43 <= k < 47 ==> k - 43 < |PSEUDO_RULES| && RULES[k] == PSEUDO_RULES[k - 43]
    ensures 47 <= k < 55 ==> k - 47 < |OPERAND_RULES| && RULES[k] == OPERAND_RULES[k - 47]
    ensures 55 <= k ==> k - 55 < |PAREN_RULES| && RULES[k] == PAREN_RULES[k - 55]
  {
    hide LAYOUT_RULES, FIRST_INSN_RULES, MORE_INSN_RULES, PSEUDO_RULES, OPERAND_RULES, PAREN_RULES;
    Sizes();
  }

  lemma RuledPosition(k: nat)
    requires 5 <= k < 43
    ensures Ruled(k) != UNKNOWN && Position(Ruled(k)) == k
  {
  }

  lemma PositionRuled(m: Mnemonic)
    requires m != UNKNOWN
    ensures 5 <= Position(m) < 43 && Ruled(Position(m)) == m
  {
  }

  predicate Row(row: (string, string), m: Mnemonic) {
    row.0 == "insn::" + Grammar.MnemonicName(m) && row.1 == Spelled(m)
  }

  lemma NopToAnd()
    ensures |FIRST_INSN_RULES| == 19
    ensures Row(FIRST_INSN_RULES[0], Mnemonic.NOP) && Row(FIRST_INSN_RULES[1], ADDI) && Row(FIRST_INSN_RULES[2], ADD)
    ensures Row(FIRST_INSN_RULES[3], ANDI) && Row(FIRST_INSN_RULES[4], AND)
  {
  }

  lemma BeqToSrl()
    ensures |FIRST_INSN_RULES| == 19
    ensures Row(FIRST_INSN_RULES[5], BEQ) && Row(FIRST_INSN_RULES[6], SLLI) && Row(FIRST_INSN_RULES[7], SRLI)
    ensures Row(FIRST_INSN_RULES[8], SLL) && Row(FIRST_INSN_RULES[9], SRL)
  {
  }

  lemma OriToXor()
    ensures |FIRST_INSN_RULES| == 19
    ensures Row(FIRST_INSN_RULES[10], ORI) && Row(FIRST_INSN_RULES[11], OR) && Row(FIRST_INSN_RULES[12], BNE)
    ensures Row(FIRST_INSN_RULES[13], XORI) && Row(FIRST_INSN_RULES[14], XOR)
  {
  }

  lemma BgeuToSlti()
    ensures |FIRST_INSN_RULES| == 19
    ensures Row(FIRST_INSN_RULES[15], BGEU) && Row(FIRST_INSN_RULES[16], BGE) && Row(FIRST_INSN_RULES[17], SLTIU)
    ensures Row(FIRST_INSN_RULES[18], SLTI)
  {
  }

  lemma SltuToLui()
    ensures |MORE_INSN_RULES| == 19
    ensures Row(MORE_INSN_RULES[0], SLTU) && Row(MORE_INSN_RULES[1], SLT) && Row(MORE_INSN_RULES[2], SRAI)
    ensures Row(MORE_INSN_RULES[3], SRA) && Row(MORE_INSN_RULES[4], LUI)
  {
  }

  lemma AuipcToLhu()
    ensures |MORE_INSN_RULES| == 19
    ensures Row(MORE_INSN_RULES[5], AUIPC) && Row(MORE_INSN_RULES[6], BLTU) && Row(MORE_INSN_RULES[7], BLT)
    ensures Row(MORE_INSN_RULES[8], LBU) && Row(MORE_INSN_RULES[9], LHU)
  {
  }

  lemma LbToSw()
    ensures |MORE_INSN_RULES| == 19
    ensures Row(MORE_INSN_RULES[10], LB) && Row(MORE_INSN_RULES[11], LH) && Row(MORE_INSN_RULES[12], LW)
    ensures Row(MORE_INSN_RULES[13], SB) && Row(MORE_INSN_RULES[14], SW)
  {
  }

  lemma ShToSub()
    ensures |MORE_INSN_RULES| == 19
    ensures Row(MORE_INSN_RULES[15], SH) && Row(MORE_INSN_RULES[16], JALR) && Row(MORE_INSN_RULES[17], JAL)
    ensures Row(MORE_INSN_RULES[18], SUB)
  {
  }

  lemma FirstHalf(k: nat)
    requires 5 <= k < 24
    ensures |FIRST_INSN_RULES| == 19 && Row(FIRST_INSN_RULES[k - 5], Ruled(k))
  {
    hide Row, FIRST_INSN_RULES;
    NopToAnd();
    BeqToSrl();
    OriToXor();
    BgeuToSlti();
  }

  lemma SecondHalf(k: nat)
    requires 24 <= k < 43
    ensures |MORE_INSN_RULES| == 19 && Row(MORE_INSN_RULES[k - 24], Ruled(k))
  {
    hide Row, MORE_INSN_RULES;
    SltuToLui();
    AuipcToLhu();
    LbToSw();
    ShToSub();
  }

  lemma RuledRow(k: nat)
    requires 5 <= k < 43
    ensures |RULES| == 57 && Row(RULES[k], Ruled(k))
  {
    hide Row, RULES, FIRST_INSN_RULES, MORE_INSN_RULES, Ruled;
    Sizes();
    Parts(k);
    if k < 24 { FirstHalf(k); } else { SecondHalf(k); }
  }

  /** The rules of mnemonics: type and text of each. */
  lemma MnemonicRow(m: Mnemonic)
    requires m != UNKNOWN
    ensures |RULES| == 57 && 5 <= Position(m) < 43 && RULES[Position(m)] == (KindOf(m), Spelled(m))
  {
    hide RULES, Position, Ruled, Spelled, Grammar.MnemonicName, KindOf;
    PositionRuled(m);
    RuledRow(Position(m));
    KindIsName(m);
  }

  lemma ImmediateFirst(a: Mnemonic, b: Mnemonic)
    requires a in {ADD, AND, SLL, SRL, OR, XOR, SRA} && Extends(a, b)
    ensures Position(b) < Position(a)
  {
  }

  lemma OtherFirst(a: Mnemonic, b: Mnemonic)
    requires a in {BGE, BLT, JAL, LB, LH, SLT, SLTI} && Extends(a, b)
    ensures Position(b) < Position(a)
  {
  }

  /** A longer mnemonic has the earlier rule. */
  lemma LongerFirst(a: Mnemonic, b: Mnemonic)
    requires Extends(a, b)
    ensures Position(b) < Position(a)
  {
    hide Extends, Position;
    Extended(a, b);
    if a in {ADD, AND, SLL, SRL, OR, XOR, SRA} {
      ImmediateFirst(a, b);
    } else {
      OtherFirst(a, b);
    }
  }
}
