/** How mnemonics, registers and numbers are written, independently of the assembler's tables, and
    that the tables read them back (compilateur/src/asm_line.c). */
module Spelling {
  import opened Options
  import opened AsmLine
  import opened Grammar

  // ----- mnemonics -----

  /** A mnemonic as it is written in a program. */
  function Spelled(m: Mnemonic): string {
    match m
    case NOP => "nop" case ADD => "add" case AND => "and" case SLL => "sll" case SRL => "srl"
    case OR => "or" case XOR => "xor" case SLTU => "sltu" case SLT => "slt" case SRA => "sra" case SUB => "sub"
    case ADDI => "addi" case ANDI => "andi" case SLLI => "slli" case SRLI => "srli" case ORI => "ori"
    case XORI => "xori" case SLTIU => "sltiu" case SLTI => "slti" case SRAI => "srai"
    case BEQ => "beq" case BNE => "bne" case BGEU => "bgeu" case BGE => "bge" case BLTU => "bltu" case BLT => "blt"
    case LUI => "lui" case AUIPC => "auipc" case LBU => "lbu" case LHU => "lhu" case LB => "lb" case LH => "lh"
    case LW => "lw" case SB => "sb" case SW => "sw" case SH => "sh" case JAL => "jal" case JALR => "jalr"
    case UNKNOWN => ""
  }

  function Capital(c: char): char {
    if 'a' <= c <= 'z' then (c as int - 32) as char else c
  }

  function Capitals(s: string): string {
    seq(|s|, i requires 0 <= i < |s| => Capital(s[i]))
  }

  /** The type of a mnemonic's lexeme: its capitals. */
  function KindOf(m: Mnemonic): string {
    "insn::" + Capitals(Spelled(m))
  }

  predicate Small(s: string) {
    forall k :: 0 <= k < |s| ==> 'a' <= s[k] <= 'z'
  }

  lemma CapitalEarly(m: Mnemonic)
    requires m in {ADD, ADDI, AND, ANDI, AUIPC, BEQ, BNE}
    ensures MnemonicName(m) == Capitals(Spelled(m)) && Small(Spelled(m)) && |Spelled(m)| > 1
  {
  }

  lemma CapitalBranches(m: Mnemonic)
    requires m in {BGE, BGEU, BLT, BLTU, JAL, JALR, LUI}
    ensures MnemonicName(m) == Capitals(Spelled(m)) && Small(Spelled(m)) && |Spelled(m)| > 1
  {
  }

  lemma CapitalLoads(m: Mnemonic)
    requires m in {LB, LBU, LH, LHU, LW, NOP, OR, ORI}
    ensures MnemonicName(m) == Capitals(Spelled(m)) && Small(Spelled(m)) && |Spelled(m)| > 1
  {
  }

  lemma CapitalStores(m: Mnemonic)
    requires m in {SB, SH, SW, SUB, XOR, XORI}
    ensures MnemonicName(m) == Capitals(Spelled(m)) && Small(Spelled(m)) && |Spelled(m)| > 1
  {
  }

  lemma CapitalShifts(m: Mnemonic)
    requires m in {SLL, SLLI, SRL, SRLI, SRA, SRAI}
    ensures MnemonicName(m) == Capitals(Spelled(m)) && Small(Spelled(m)) && |Spelled(m)| > 1
  {
  }

  lemma CapitalComparisons(m: Mnemonic)
    requires m in {SLT, SLTI, SLTU, SLTIU}
    ensures MnemonicName(m) == Capitals(Spelled(m)) && Small(Spelled(m)) && |Spelled(m)| > 1
  {
  }

  lemma CapitalName(m: Mnemonic)
    requires m != UNKNOWN
    ensures MnemonicName(m) == Capitals(Spelled(m)) && Small(Spelled(m)) && |Spelled(m)| > 1
  {
    hide MnemonicName, Spelled, Capitals, Small;
    if m in {ADD, ADDI, AND, ANDI, AUIPC, BEQ, BNE} {
      CapitalEarly(m);
    } else if m in {BGE, BGEU, BLT, BLTU, JAL, JALR, LUI} {
      CapitalBranches(m);
    } else if m in {LB, LBU, LH, LHU, LW, NOP, OR, ORI} {
      CapitalLoads(m);
    } else if m in {SB, SH, SW, SUB, XOR, XORI} {
      CapitalStores(m);
    } else if m in {SLL, SLLI, SRL, SRLI, SRA, SRAI} {
      CapitalShifts(m);
    } else {
      CapitalComparisons(m);
    }
  }

  lemma KindIsName(m: Mnemonic)
    requires m != UNKNOWN
    ensures Name(Insn(m)) == KindOf(m)
  {
    hide MnemonicName, Spelled, Capitals;
    CapitalName(m);
  }

  // ----- which mnemonics start with another one -----

  predicate Extends(a: Mnemonic, b: Mnemonic) {
    match a
    case ADD => b == ADDI
    case AND => b == ANDI
    case BGE => b == BGEU
    case BLT => b == BLTU
    case JAL => b == JALR
    case LB => b == LBU
    case LH => b == LHU
    case OR => b == ORI
    case XOR => b == XORI
    case SLL => b == SLLI
    case SRL => b == SRLI
    case SRA => b == SRAI
    case SLT => b == SLTI || b == SLTU || b == SLTIU
    case SLTI => b == SLTIU
    case _ => false
  }

  lemma Extended(a: Mnemonic, b: Mnemonic)
    requires Extends(a, b)
    ensures a in {ADD, AND, SLL, SRL, OR, XOR, SRA, BGE, BLT, JAL, LB, LH, SLT, SLTI}
  {
  }

  /** The letters of a mnemonic, one by one, as places in the alphabet. */
  datatype Letters = Letters(length: nat, a: int, b: int, c: int, d: int, e: int)

  function LettersOf(m: Mnemonic): Letters {
    match m
    case ADD => Letters(3, 1, 4, 4, 0, 0)
    case ADDI => Letters(4, 1, 4, 4, 9, 0)
    case AND => Letters(3, 1, 14, 4, 0, 0)
    case ANDI => Letters(4, 1, 14, 4, 9, 0)
    case AUIPC => Letters(5, 1, 21, 9, 16, 3)
    case BEQ => Letters(3, 2, 5, 17, 0, 0)
    case BNE => Letters(3, 2, 14, 5, 0, 0)
    case BGE => Letters(3, 2, 7, 5, 0, 0)
    case BGEU => Letters(4, 2, 7, 5, 21, 0)
    case BLT => Letters(3, 2, 12, 20, 0, 0)
    case BLTU => Letters(4, 2, 12, 20, 21, 0)
    case JAL => Letters(3, 10, 1, 12, 0, 0)
    case JALR => Letters(4, 10, 1, 12, 18, 0)
    case LUI => Letters(3, 12, 21, 9, 0, 0)
    case LB => Letters(2, 12, 2, 0, 0, 0)
    case LBU => Letters(3, 12, 2, 21, 0, 0)
    case LH => Letters(2, 12, 8, 0, 0, 0)
    case LHU => Letters(3, 12, 8, 21, 0, 0)
    case LW => Letters(2, 12, 23, 0, 0, 0)
    case NOP => Letters(3, 14, 15, 16, 0, 0)
    case OR => Letters(2, 15, 18, 0, 0, 0)
    case ORI => Letters(3, 15, 18, 9, 0, 0)
    case SB => Letters(2, 19, 2, 0, 0, 0)
    case SH => Letters(2, 19, 8, 0, 0, 0)
    case SW => Letters(2, 19, 23, 0, 0, 0)
    case SUB => Letters(3, 19, 21, 2, 0, 0)
    case XOR => Letters(3, 24, 15, 18, 0, 0)
    case XORI => Letters(4, 24, 15, 18, 9, 0)
    case SLL => Letters(3, 19, 12, 12, 0, 0)
    case SLLI => Letters(4, 19, 12, 12, 9, 0)
    case SRL => Letters(3, 19, 18, 12, 0, 0)
    case SRLI => Letters(4, 19, 18, 12, 9, 0)
    case SRA => Letters(3, 19, 18, 1, 0, 0)
    case SRAI => Letters(4, 19, 18, 1, 9, 0)
    case SLT => Letters(3, 19, 12, 20, 0, 0)
    case SLTI => Letters(4, 19, 12, 20, 9, 0)
    case SLTU => Letters(4, 19, 12, 20, 21, 0)
    case SLTIU => Letters(5, 19, 12, 20, 9, 21)
    case UNKNOWN => Letters(0, 0, 0, 0, 0, 0)
  }

  function Place(c: char): int {
    c as int - 96
  }

  predicate HasLetters(s: string, l: Letters) {
    && |s| == l.length && (|s| > 0 ==> Place(s[0]) == l.a) && (|s| > 1 ==> Place(s[1]) == l.b)
    && (|s| > 2 ==> Place(s[2]) == l.c) && (|s| > 3 ==> Place(s[3]) == l.d) && (|s| > 4 ==> Place(s[4]) == l.e)
  }

  lemma LettersEarly(m: Mnemonic)
    requires m in {ADD, ADDI, AND, ANDI, AUIPC, BEQ, BNE}
    ensures HasLetters(Spelled(m), LettersOf(m))
  {
  }

  lemma LettersBranches(m: Mnemonic)
    requires m in {BGE, BGEU, BLT, BLTU, JAL, JALR, LUI}
    ensures HasLetters(Spelled(m), LettersOf(m))
  {
  }

  lemma LettersLoads(m: Mnemonic)
    requires m in {LB, LBU, LH, LHU, LW, NOP, OR, ORI}
    ensures HasLetters(Spelled(m), LettersOf(m))
  {
  }

  lemma LettersStores(m: Mnemonic)
    requires m in {SB, SH, SW, SUB, XOR, XORI}
    ensures HasLetters(Spelled(m), LettersOf(m))
  {
  }

  lemma LettersShifts(m: Mnemonic)
    requires m in {SLL, SLLI, SRL, SRLI, SRA, SRAI}
    ensures HasLetters(Spelled(m), LettersOf(m))
  {
  }

  lemma LettersComparisons(m: Mnemonic)
    requires m in {SLT, SLTI, SLTU, SLTIU}
    ensures HasLetters(Spelled(m), LettersOf(m))
  {
  }

  lemma LettersRead(m: Mnemonic)
    requires m != UNKNOWN
    ensures HasLetters(Spelled(m), LettersOf(m))
  {
    hide Spelled, LettersOf, HasLetters;
    if m in {ADD, ADDI, AND, ANDI, AUIPC, BEQ, BNE} {
      LettersEarly(m);
    } else if m in {BGE, BGEU, BLT, BLTU, JAL, JALR, LUI} {
      LettersBranches(m);
    } else if m in {LB, LBU, LH, LHU, LW, NOP, OR, ORI} {
      LettersLoads(m);
    } else if m in {SB, SH, SW, SUB, XOR, XORI} {
      LettersStores(m);
    } else if m in {SLL, SLLI, SRL, SRLI, SRA, SRAI} {
      LettersShifts(m);
    } else {
      LettersComparisons(m);
    }
  }

  /** The mnemonic of the first n letters, if there is one. */
  function Cut(l: Letters, n: nat): Mnemonic {
    if n == 2 then TwoLetters(l.a, l.b)
    else if n == 3 then ThreeLetters(l.a, l.b, l.c)
    else if n == 4 then FourLetters(l.a, l.b, l.c, l.d)
    else if n == 5 then FiveLetters(l.a, l.b, l.c, l.d, l.e)
    else UNKNOWN
  }

  function TwoLetters(a: int, b: int): Mnemonic {
    if a == 12 then (if b == 2 then LB else if b == 8 then LH else if b == 23 then LW else UNKNOWN)
    else if a == 15 then (if b == 18 then OR else UNKNOWN)
    else if a == 19 then (if b == 2 then SB else if b == 8 then SH else if b == 23 then SW else UNKNOWN)
    else UNKNOWN
  }

  function ThreeLetters(a: int, b: int, c: int): Mnemonic {
    if a == 1 then (if b == 4 then (if c == 4 then ADD else UNKNOWN)
      else if b == 14 then (if c == 4 then AND else UNKNOWN)
      else UNKNOWN)
    else if a == 2 then (if b == 5 then (if c == 17 then BEQ else UNKNOWN)
      else if b == 14 then (if c == 5 then BNE else UNKNOWN)
      else if b == 7 then (if c == 5 then BGE else UNKNOWN)
      else if b == 12 then (if c == 20 then BLT else UNKNOWN)
      else UNKNOWN)
    else if a == 10 then (if b == 1 then (if c == 12 then JAL else UNKNOWN)
      else UNKNOWN)
    else if a == 12 then (if b == 21 then (if c == 9 then LUI else UNKNOWN)
      else if b == 2 then (if c == 21 then LBU else UNKNOWN)
      else if b == 8 then (if c == 21 then LHU else UNKNOWN)
      else UNKNOWN)
    else if a == 14 then (if b == 15 then (if c == 16 then NOP else UNKNOWN)
      else UNKNOWN)
    else if a == 15 then (if b == 18 then (if c == 9 then ORI else UNKNOWN)
      else UNKNOWN)
    else if a == 19 then (if b == 21 then (if c == 2 then SUB else UNKNOWN)
      else if b == 12 then (if c == 12 then SLL else if c == 20 then SLT else UNKNOWN)
      else if b == 18 then (if c == 12 then SRL else if c == 1 then SRA else UNKNOWN)
      else UNKNOWN)
    else if a == 24 then (if b == 15 then (if c == 18 then XOR else UNKNOWN)
      else UNKNOWN)
    else UNKNOWN
  }

  function FourLetters(a: int, b: int, c: int, d: int): Mnemonic {
    if a == 1 then (if b == 4 then (if c == 4 then (if d == 9 then ADDI else UNKNOWN)
        else UNKNOWN)
      else if b == 14 then (if c == 4 then (if d == 9 then ANDI else UNKNOWN)
        else UNKNOWN)
      else UNKNOWN)
    else if a == 2 then (if b == 7 then (if c == 5 then (if d == 21 then BGEU else UNKNOWN)
        else UNKNOWN)
      else if b == 12 then (if c == 20 then (if d == 21 then BLTU else UNKNOWN)
        else UNKNOWN)
      else UNKNOWN)
    else if a == 10 then (if b == 1 then (if c == 12 then (if d == 18 then JALR else UNKNOWN)
        else UNKNOWN)
      else UNKNOWN)
    else if a == 24 then (if b == 15 then (if c == 18 then (if d == 9 then XORI else UNKNOWN)
        else UNKNOWN)
      else UNKNOWN)
    else if a == 19 then (if b == 12 then (if c == 12 then (if d == 9 then SLLI else UNKNOWN)
        else if c == 20 then (if d == 9 then SLTI else if d == 21 then SLTU else UNKNOWN)
        else UNKNOWN)
      else if b == 18 then (if c == 12 then (if d == 9 then SRLI else UNKNOWN)
        else if c == 1 then (if d == 9 then SRAI else UNKNOWN)
        else UNKNOWN)
      else UNKNOWN)
    else UNKNOWN
  }

  function FiveLetters(a: int, b: int, c: int, d: int, e: int): Mnemonic {
    if a == 1 then (if b == 21 then (if c == 9 then (if d == 16 then (if e == 3 then AUIPC else UNKNOWN)
          else UNKNOWN)
        else UNKNOWN)
      else UNKNOWN)
    else if a == 19 then (if b == 12 then (if c == 20 then (if d == 9 then (if e == 21 then SLTIU else UNKNOWN)
          else UNKNOWN)
        else UNKNOWN)
      else UNKNOWN)
    else UNKNOWN
  }

  lemma CutSelf(m: Mnemonic)
    requires m != UNKNOWN
    ensures Cut(LettersOf(m), LettersOf(m).length) == m
  {
  }

  lemma CutTwo(m: Mnemonic)
    requires m != UNKNOWN && LettersOf(m).length > 2
    ensures var k := Cut(LettersOf(m), 2); k == UNKNOWN || Extends(k, m)
  {
  }

  lemma CutThree(m: Mnemonic)
    requires m != UNKNOWN && LettersOf(m).length > 3
    ensures var k := Cut(LettersOf(m), 3); k == UNKNOWN || Extends(k, m)
  {
  }

  lemma CutFour(m: Mnemonic)
    requires m != UNKNOWN && LettersOf(m).length > 4
    ensures var k := Cut(LettersOf(m), 4); k == UNKNOWN || Extends(k, m)
  {
  }

  lemma Lengths(m: Mnemonic)
    requires m != UNKNOWN
    ensures 2 <= LettersOf(m).length <= 5
  {
  }

  /** What is cut depends on the letters alone. */
  lemma SameCut(x: string, y: string, k: Letters, l: Letters)
    requires x <= y && HasLetters(x, k) && HasLetters(y, l)
    ensures k.length <= l.length && Cut(k, k.length) == Cut(l, k.length)
  {
    hide TwoLetters, ThreeLetters, FourLetters, FiveLetters;
  }

  /** No mnemonic is the front of another one but these. */
  lemma PrefixExact(m: Mnemonic, b: Mnemonic)
    requires m != UNKNOWN && b != UNKNOWN && Spelled(m) <= Spelled(b)
    ensures m == b || Extends(m, b)
  {
    hide Spelled, Extends, LettersOf, HasLetters, Cut;
    LettersRead(m);
    LettersRead(b);
    SameCut(Spelled(m), Spelled(b), LettersOf(m), LettersOf(b));
    CutSelf(m);
    Lengths(m);
    Lengths(b);
    CutSelf(b);
    if LettersOf(b).length > 2 { CutTwo(b); }
    if LettersOf(b).length > 3 { CutThree(b); }
    if LettersOf(b).length > 4 { CutFour(b); }
  }

  // ----- and that they are read back -----

  /** A small letter is known from its capital. */
  lemma CapitalsDiffer(s: string, t: string)
    requires Small(s) && Small(t) && Capitals(s) == Capitals(t)
    ensures s == t
  {
    assert |s| == |Capitals(s)| == |t|;
    forall k | 0 <= k < |s| ensures s[k] == t[k] {
      assert Capitals(s)[k] == Capitals(t)[k];
    }
  }

  lemma NamesDiffer(a: Mnemonic, b: Mnemonic)
    requires a != UNKNOWN && b != UNKNOWN && MnemonicName(a) == MnemonicName(b)
    ensures a == b
  {
    hide Spelled, MnemonicName, Small, Capitals, LettersOf, Cut;
    CapitalName(a);
    CapitalName(b);
    CapitalsDiffer(Spelled(a), Spelled(b));
    LettersRead(a);
    LettersRead(b);
    CutSelf(a);
    CutSelf(b);
    SameCut(Spelled(a), Spelled(b), LettersOf(a), LettersOf(b));
  }

  lemma {:induction false} Found(m: Mnemonic, ms: seq<Mnemonic>)
    requires m in ms && UNKNOWN !in ms
    ensures FindInsn(Name(Insn(m)), ms) == m
    decreases |ms|
  {
    hide MnemonicName;
    if Name(Insn(m)) == Name(Insn(ms[0])) {
      assert MnemonicName(m) == Name(Insn(m))[6..] == Name(Insn(ms[0]))[6..] == MnemonicName(ms[0]);
      NamesDiffer(m, ms[0]);
    } else {
      Found(m, ms[1..]);
    }
  }

  lemma Listed(m: Mnemonic)
    requires m != UNKNOWN
    ensures m in MNEMONICS && UNKNOWN !in MNEMONICS
  {
  }

  /** str2insn reads every mnemonic back. */
  lemma InsnRead(m: Mnemonic)
    requires m != UNKNOWN
    ensures Str2Insn(KindOf(m)) == m
  {
    hide Spelled, MnemonicName, FindInsn, MNEMONICS, KindOf, Name;
    KindIsName(m);
    Listed(m);
    Found(m, MNEMONICS);
  }

  // ----- numbers -----

  /** A natural number in decimal. */
  function Decimal(n: nat): (s: string)
    ensures s != "" && forall k :: 0 <= k < |s| ==> '0' <= s[k] <= '9'
  {
    (if n < 10 then "" else Decimal(n / 10)) + [('0' as int + n % 10) as char]
  }

  function Number(n: int): (s: string)
    ensures s != ""
  {
    if n < 0 then "-" + Decimal(-n) else Decimal(n)
  }

  lemma {:induction false} DigitsConcat(s: string, t: string, acc: int)
    requires forall k :: 0 <= k < |s| ==> '0' <= s[k] <= '9'
    ensures Digits(s + t, acc) == Digits(t, Digits(s, acc))
    decreases |s|
  {
    if s == "" {
      assert s + t == t;
    } else {
      assert (s + t)[1..] == s[1..] + t;
      DigitsConcat(s[1..], t, 10 * acc + (s[0] as int - '0' as int));
    }
  }

  lemma {:induction false} DecimalRead(n: nat)
    ensures Digits(Decimal(n), 0) == n
  {
    var d := ('0' as int + n % 10) as char;
    if n >= 10 {
      DecimalRead(n / 10);
      DigitsConcat(Decimal(n / 10), [d], 0);
    }
    assert [d][1..] == "";
    assert forall acc :: Digits([d], acc) == 10 * acc + n % 10;
  }

  /** atoi reads every decimal number back, with a sign or without. */
  lemma NumberRead(n: int)
    ensures Atoi(Number(n)) == n
    ensures n >= 0 ==> Atoi("+" + Decimal(n)) == n
  {
    if n < 0 {
      DecimalRead(-n);
      assert ("-" + Decimal(-n))[1..] == Decimal(-n);
    } else {
      DecimalRead(n);
      assert ("+" + Decimal(n))[1..] == Decimal(n);
    }
  }

  // ----- registers -----

  datatype Reg = R(n: nat) | Zero | Ra | Sp | S(k: nat) | A(k: nat) {
    predicate Ok() {
      (R? ==> n < 32) && (S? ==> k < 2) && (A? ==> k < 8)
    }

    /** How a register is written. */
    function Text(): string {
      match this
      case R(n) => "r" + Decimal(n)
      case Zero => "zero"
      case Ra => "ra"
      case Sp => "sp"
      case S(k) => "s" + Decimal(k)
      case A(k) => "a" + Decimal(k)
    }

    /** Which register it is. */
    function Index(): nat {
      match this
      case R(n) => n
      case Zero => 0
      case Ra => 1
      case Sp => 2
      case S(k) => 8 + k
      case A(k) => 10 + k
    }
  }

  lemma {:induction false} FoundReg(name: string, r: nat, n: nat)
    requires r <= n < 32 && name in Aliases(n)
    requires forall j :: r <= j < n ==> name !in Aliases(j)
    ensures FindReg(name, r) == n
    decreases n - r
  {
    hide Aliases;
    if r < n {
      FoundReg(name, r + 1, n);
    }
  }

  lemma DecimalsDiffer(a: nat, b: nat)
    requires Decimal(a) == Decimal(b)
    ensures a == b
  {
    DecimalRead(a);
    DecimalRead(b);
  }

  /** The second name of register j, if it has one. */
  function Other(j: nat): string {
    if j == 0 then "zero" else if j == 1 then "ra" else if j == 2 then "sp"
    else if j in {8, 9} then "s" + Decimal(j - 8)
    else if 10 <= j < 18 then "a" + Decimal(j - 10) else ""
  }

  function DigitOf(d: nat): char
    requires d < 10
  {
    ('0' as int + d) as char
  }

  lemma ShortDecimal(n: nat)
    ensures n < 10 ==> Decimal(n) == [DigitOf(n)]
    ensures 10 <= n < 100 ==> Decimal(n) == [DigitOf(n / 10), DigitOf(n % 10)]
  {
    if 10 <= n < 100 {
      assert Decimal(n / 10) == [DigitOf(n / 10)];
    }
  }

  lemma OneDigit(j: nat)
    requires j < 10
    ensures Aliases(j) == if Other(j) == "" then ["r" + Decimal(j)] else ["r" + Decimal(j), Other(j)]
  {
    hide Decimal;
    ShortDecimal(j);
    ShortDecimal(0);
    ShortDecimal(1);
    assert Aliases(j)[0] == "r" + Decimal(j);
    assert |Aliases(j)| == 2 ==> Aliases(j)[1] == Other(j);
  }

  lemma TwoDigits(j: nat)
    requires 10 <= j < 32
    ensures Aliases(j) == if Other(j) == "" then ["r" + Decimal(j)] else ["r" + Decimal(j), Other(j)]
  {
    hide Decimal;
    ShortDecimal(j);
    if j < 18 {
      ShortDecimal(j - 10);
    }
    assert Aliases(j)[0] == "r" + Decimal(j);
    assert |Aliases(j)| == 2 ==> Aliases(j)[1] == Other(j);
  }

  /** The table, register by register. */
  lemma AliasesExact(j: nat)
    requires j < 32
    ensures Aliases(j) == if Other(j) == "" then ["r" + Decimal(j)] else ["r" + Decimal(j), Other(j)]
  {
    if j < 10 { OneDigit(j); } else { TwoDigits(j); }
  }

  /** No other register has that name. */
  lemma NotAlias(r: Reg, j: nat)
    requires r.Ok() && j < 32 && j != r.Index()
    ensures r.Text() !in Aliases(j)
  {
    hide Aliases, Decimal;
    AliasesExact(j);
    if r.R? && r.Text() == "r" + Decimal(j) {
      assert Decimal(r.n) == r.Text()[1..] == ("r" + Decimal(j))[1..] == Decimal(j);
      DecimalsDiffer(r.n, j);
    }
    OtherDiffers(r, j);
  }

  lemma OtherDiffers(r: Reg, j: nat)
    requires r.Ok() && j < 32 && j != r.Index()
    ensures r.Text() != Other(j)
    ensures !r.R? ==> r.Text() != "r" + Decimal(j)
  {
    hide Decimal;
    var text := r.Text();
    assert ("r" + Decimal(j))[1] == Decimal(j)[0];
    if r.S? && j in {8, 9} && Decimal(r.k) == Decimal(j - 8) {
      DecimalsDiffer(r.k, j - 8);
    }
    if r.A? && 10 <= j < 18 && Decimal(r.k) == Decimal(j - 10) {
      DecimalsDiffer(r.k, j - 10);
    }
    if r.R? { assert text[1] == Decimal(r.n)[0]; }
    if r.S? { assert text[1..] == Decimal(r.k); }
    if r.A? { assert text[1..] == Decimal(r.k); }
    if j in {8, 9} { assert Other(j)[1..] == Decimal(j - 8); }
    if 10 <= j < 18 { assert Other(j)[1..] == Decimal(j - 10); }
    if j == 2 && r.S? { assert text[1] == Decimal(r.k)[0]; }
    if j in {8, 9} && r.Sp? { assert Other(j)[1] == Decimal(j - 8)[0]; }
  }

  lemma IsAlias(r: Reg)
    requires r.Ok()
    ensures r.Index() < 32 && r.Text() in Aliases(r.Index())
  {
    hide Aliases, Decimal;
    AliasesExact(r.Index());
    if r.R? {
    } else {
      assert r.Text() == Other(r.Index());
      assert r.Text() != "";
    }
  }

  /** str2reg reads every register back, by any of its names. */
  lemma RegRead(r: Reg)
    requires r.Ok()
    ensures Str2Reg(r.Text()) == r.Index()
  {
    hide Aliases, Decimal, FindReg;
    IsAlias(r);
    forall j | 0 <= j < r.Index() ensures r.Text() !in Aliases(j) {
      NotAlias(r, j);
    }
    FoundReg(r.Text(), 0, r.Index());
  }

  lemma {:induction false} FoundIs(name: string, r: nat)
    requires r <= 32 && FindReg(name, r) >= 0
    ensures r <= FindReg(name, r) < 32 && name in Aliases(FindReg(name, r))
    decreases 32 - r
  {
    hide Aliases;
    if r < 32 && name !in Aliases(r) {
      FoundIs(name, r + 1);
    }
  }

  /** The register of that number with that name. */
  lemma Named(name: string, j: nat) returns (r: Reg)
    requires j < 32 && name in Aliases(j)
    ensures r.Ok() && r.Text() == name
  {
    hide Aliases, Decimal;
    AliasesExact(j);
    if name == "r" + Decimal(j) {
      r := R(j);
    } else {
      r := if j == 0 then Zero else if j == 1 then Ra else if j == 2 then Sp
        else if j < 10 then S(j - 8) else A(j - 10);
    }
  }

  /** And it refuses every other name: `pc`, `r32` and the rest have no number. */
  lemma RegExact(name: string)
    ensures Str2Reg(name) >= 0 <==> exists r: Reg :: r.Ok() && r.Text() == name
    ensures Str2Reg(name) >= -1
  {
    hide Aliases, Decimal, FindReg, Reg.Text, Reg.Ok;
    if Str2Reg(name) >= 0 {
      FoundIs(name, 0);
      var r := Named(name, Str2Reg(name));
    }
    if r: Reg :| r.Ok() && r.Text() == name {
      RegRead(r);
    }
    NotFoundIs(name, 0);
  }

  lemma {:induction false} NotFoundIs(name: string, r: nat)
    requires r <= 32
    ensures FindReg(name, r) >= -1
    decreases 32 - r
  {
    hide Aliases;
    if r < 32 {
      NotFoundIs(name, r + 1);
    }
  }

  lemma {:induction false} ZeroDigits(zeros: string, s: string)
    requires forall k :: 0 <= k < |zeros| ==> zeros[k] == '0'
    ensures Digits(zeros + s, 0) == Digits(s, 0)
    decreases |zeros|
  {
    if zeros == "" {
      assert zeros + s == s;
    } else {
      ZeroDigits(zeros[1..], s);
      assert (zeros + s)[1..] == zeros[1..] + s;
    }
  }

  /** Leading zeros do not count. */
  lemma ZerosRead(n: int, zeros: string)
    requires n >= 0 && forall k :: 0 <= k < |zeros| ==> zeros[k] == '0'
    ensures Atoi(zeros + Decimal(n)) == n && Atoi("-" + zeros + Decimal(n)) == -n
  {
    hide Decimal;
    DecimalRead(n);
    ZeroDigits(zeros, Decimal(n));
    var s := zeros + Decimal(n);
    assert ("-" + zeros + Decimal(n))[1..] == s;
    assert s[0] == if zeros == "" then Decimal(n)[0] else '0';
    assert '0' <= s[0] <= '9';
  }
}
