/** Statements as a programmer means them, how they are written as lexemes, and that the parser makes
    of any list of them exactly the lines that denote them. */
module Statements {
  import opened Options
  import opened AsmLine
  import opened Grammar
  import opened Spelling
  import Labels

  datatype Stmt =
    | OpReg(m: Mnemonic, rd: Reg, rs1: Reg, rs2: Reg)
    | OpImm(m: Mnemonic, rd: Reg, rs1: Reg, imm: int)
    | If(m: Mnemonic, rs1: Reg, rs2: Reg, target: string)
    | Fetch(m: Mnemonic, rd: Reg, offset: int, base: Reg)
    | Put(m: Mnemonic, src: Reg, offset: int, base: Reg)
    | Call(rd: Reg, target: string)
    | CallReg(rd: Reg, base: Reg, target: string)
    | OpUpper(m: Mnemonic, rd: Reg, imm: int)
    | Goto(target: string)
    | Set(rd: Reg, imm: int)
    | Copy(rd: Reg, rs: Reg)

  predicate WellFormed(s: Stmt) {
    match s
    case OpReg(m, rd, rs1, rs2) =>
      m in {ADD, SUB, AND, OR, XOR, SLL, SRL, SRA, SLT, SLTU} && rd.Ok() && rs1.Ok() && rs2.Ok()
    case OpImm(m, rd, rs1, _) =>
      m in {ADDI, ANDI, ORI, XORI, SLLI, SRLI, SRAI, SLTI, SLTIU} && rd.Ok() && rs1.Ok()
    case If(m, rs1, rs2, _) => m in {BEQ, BNE, BLT, BGE, BLTU, BGEU} && rs1.Ok() && rs2.Ok()
    case Fetch(m, rd, _, base) => m in {LB, LH, LW, LBU, LHU} && rd.Ok() && base.Ok()
    case Put(m, src, _, base) => m in {SB, SH, SW} && src.Ok() && base.Ok()
    case Call(rd, _) => rd.Ok()
    case CallReg(rd, base, _) => rd.Ok() && base.Ok()
    case OpUpper(m, rd, _) => m in {LUI, AUIPC} && rd.Ok()
    case Goto(_) => true
    case Set(rd, _) => rd.Ok()
    case Copy(rd, rs) => rd.Ok() && rs.Ok()
  }

  // ----- lexemes -----

  datatype Token = Token(kind: string, value: string)

  const SPACE := Token("blank", " ")
  const COMMA := Token("comma", ",")
  const OPEN := Token("paren::left", "(")
  const CLOSE := Token("paren::right", ")")
  const NEWLINE := Token("newline", "\n")

  function Insn(m: Mnemonic): Token { Token(KindOf(m), Spelled(m)) }
  function Reg(r: Reg): Token { Token("symbole::register", r.Text()) }
  function Num(n: int): Token { Token("integer::dec", Number(n)) }
  function Ref(name: string): Token { Token("symbole::label", name) }

  /** A statement: its mnemonic, a blank, and the operands in the order they are written. */
  function Head(s: Stmt): Token {
    match s
    case OpReg(m, _, _, _) => Insn(m)
    case OpImm(m, _, _, _) => Insn(m)
    case If(m, _, _, _) => Insn(m)
    case Fetch(m, _, _, _) => Insn(m)
    case Put(m, _, _, _) => Insn(m)
    case Call(_, _) => Insn(JAL)
    case CallReg(_, _, _) => Insn(JALR)
    case OpUpper(m, _, _) => Insn(m)
    case Goto(_) => Token("unsinsn::J", "j")
    case Set(_, _) => Token("unsinsn::LI", "li")
    case Copy(_, _) => Token("unsinsn::MV", "mv")
  }

  function Operands(s: Stmt): seq<Token> {
    match s
    case OpReg(_, rd, rs1, rs2) => [SPACE, Reg(rd), COMMA, Reg(rs1), COMMA, Reg(rs2)]
    case OpImm(_, rd, rs1, imm) => [SPACE, Reg(rd), COMMA, Reg(rs1), COMMA, Num(imm)]
    case If(_, rs1, rs2, target) => [SPACE, Reg(rs1), COMMA, Reg(rs2), COMMA, Ref(target)]
    case Fetch(_, rd, offset, base) => [SPACE, Reg(rd), COMMA, Num(offset), OPEN, Reg(base), CLOSE]
    case Put(_, src, offset, base) => [SPACE, Reg(src), COMMA, Num(offset), OPEN, Reg(base), CLOSE]
    case Call(rd, target) => [SPACE, Reg(rd), COMMA, Ref(target)]
    case CallReg(rd, base, target) => [SPACE, Reg(rd), COMMA, Reg(base), COMMA, Ref(target)]
    case OpUpper(_, rd, imm) => [SPACE, Reg(rd), COMMA, Num(imm)]
    case Goto(target) => [SPACE, Ref(target)]
    case Set(rd, imm) => [SPACE, Reg(rd), COMMA, Num(imm)]
    case Copy(rd, rs) => [SPACE, Reg(rd), COMMA, Reg(rs)]
  }

  /** One line of a program. */
  datatype Item = Label(name: string) | Code(stmt: Stmt)

  function ItemTokens(i: Item): seq<Token> {
    if i.Label? then [Token("label", i.name + ":"), NEWLINE]
    else [Head(i.stmt)] + Operands(i.stmt) + [NEWLINE]
  }

  function Tokens(items: seq<Item>): seq<Token> {
    if items == [] then [] else ItemTokens(items[0]) + Tokens(items[1..])
  }

  // ----- what they denote -----

  /** An instruction line: mnemonic, destination, sources, immediate, target. */
  function At(m: Mnemonic, rd: nat, rs1: nat, rs2: nat, imm: int, target: string, addr: int): Line {
    InsnLine(m, rd, rs1, rs2, imm, target, addr)
  }

  /** The lines of a statement: a branch is followed by two NOPs, J goes through r6, LI and MV add to
      r0. */
  function Denotes(s: Stmt, addr: int): seq<Line> {
    match s
    case OpReg(m, rd, rs1, rs2) => [At(m, rd.Index(), rs1.Index(), rs2.Index(), 0, "", addr)]
    case OpImm(m, rd, rs1, imm) => [At(m, rd.Index(), rs1.Index(), 0, imm, "", addr)]
    case If(m, rs1, rs2, target) =>
      [At(m, 0, rs1.Index(), rs2.Index(), 0, target, addr), At(NOP, 0, 0, 0, 0, "", addr + 4),
        At(NOP, 0, 0, 0, 0, "", addr + 8)]
    case Fetch(m, rd, offset, base) => [At(m, rd.Index(), base.Index(), 0, offset, "", addr)]
    case Put(m, src, offset, base) => [At(m, 0, base.Index(), src.Index(), offset, "", addr)]
    case Call(rd, target) => [At(JAL, rd.Index(), 0, 0, 0, target, addr)]
    case CallReg(rd, base, target) => [At(JALR, rd.Index(), base.Index(), 0, 0, target, addr)]
    case OpUpper(m, rd, imm) => [At(m, rd.Index(), 0, 0, imm, "", addr)]
    case Goto(target) => [At(JAL, 6, 0, 0, 0, target, addr)]
    case Set(rd, imm) => [At(ADDI, rd.Index(), 0, 0, imm, "", addr)]
    case Copy(rd, rs) => [At(ADD, rd.Index(), rs.Index(), 0, 0, "", addr)]
  }

  function Words(i: Item): nat {
    if i.Label? then 0 else if i.stmt.If? then 3 else 1
  }

  function Body(items: seq<Item>, addr: int): seq<Line> {
    if items == [] then []
    else
      (if items[0].Label? then [LabelLine(items[0].name, addr)] else Denotes(items[0].stmt, addr))
      + Body(items[1..], addr + 4 * Words(items[0]))
  }

  function Size(items: seq<Item>): nat {
    if items == [] then 0 else Words(items[0]) + Size(items[1..])
  }

  /** The program: a label before it, and a jump back to that label behind it. */
  function Whole(items: seq<Item>): seq<Line> {
    [LabelLine("PROG_START", 0)] + Body(items, 0) + [InsnLine(JAL, 6, 0, 0, 0, "PROG_START", 4 * Size(items))]
  }

  predicate AllWellFormed(items: seq<Item>) {
    forall k :: 0 <= k < |items| && items[k].Code? ==> WellFormed(items[k].stmt)
  }

  /** The lexemes from `pos` on start with these kinds and values; lines and columns do not matter. */
  predicate Written(input: seq<Lexem>, pos: nat, tokens: seq<Token>) {
    pos + |tokens| <= |input| &&
    forall k :: 0 <= k < |tokens| ==> input[pos + k].kind == tokens[k].kind && input[pos + k].value == tokens[k].value
  }

  // ----- terminals -----

  /** The lexeme type of each terminal that is no mnemonic. */
  function Plain(t: Terminal): string {
    match t
    case Blank => "blank"
    case Comma => "comma"
    case Comment => "comment"
    case Newline => "newline"
    case LabelDef => "label"
    case Register => "symbole::register"
    case Integer => "integer::dec"
    case LabelRef => "symbole::label"
    case ParenLeft => "paren::left"
    case ParenRight => "paren::right"
    case _ => ""
  }

  const OPERANDS: set<Terminal> :=
    {Blank, Comma, Comment, Newline, LabelDef, Register, Integer, LabelRef, ParenLeft, ParenRight}

  /** No terminal's lexeme type starts with another's. */
  lemma PlainExact(t: Terminal, u: Terminal)
    requires t in OPERANDS && u in OPERANDS
    ensures Name(t) <= Plain(u) <==> t == u
  {
    var a, b := Name(t), Plain(u);
    if a <= b {
      assert a[0] == b[0] && a[2] == b[2] && a[4] == b[4];
      assert |a| > 7 ==> a[7] == b[7];
      assert |a| > 9 ==> a[9] == b[9];
    }
  }

  // ----- which production a statement is -----

  function AltOf(s: Stmt): Alt {
    match s
    case OpReg(_, _, _, _) => RegReg
    case OpImm(_, _, _, _) => Imm
    case If(_, _, _, _) => Branch
    case Fetch(_, _, _, _) => Load
    case Put(_, _, _, _) => Store
    case Call(_, _) => Jal
    case CallReg(_, _, _) => Jalr
    case OpUpper(_, _, _) => Upper
    case Goto(_) => J
    case Set(_, _) => Li
    case Copy(_, _) => Mv
  }

  /** Each operand is a lexeme of the terminal the production has there. */
  lemma OperandKinds(s: Stmt, k: nat)
    requires k < |Operands(s)|
    ensures |Operands(s)| == |Tail(AltOf(s))| && Tail(AltOf(s))[k] in OPERANDS
    ensures Operands(s)[k].kind == Plain(Tail(AltOf(s))[k])
  {
    hide Decimal, Number, Spelling.Reg.Text;
    assert k == 0 || k == 1 || k == 2 || k == 3 || k == 4 || k == 5 || k == 6;
  }

  lemma TailKinds(a: Alt, k: nat)
    requires k < |Tail(a)|
    ensures Tail(a)[k] in OPERANDS && Tail(a)[k] != Newline
  {
  }

  /** A statement at `pos`, with the end of its line behind it. */
  predicate Stands(input: seq<Lexem>, pos: nat, s: Stmt) {
    Written(input, pos, [Head(s)] + Operands(s) + [NEWLINE])
  }

  /** What stands at position k of a statement. */
  lemma StandsAt(input: seq<Lexem>, pos: nat, s: Stmt, k: nat)
    requires Stands(input, pos, s) && k <= |Operands(s)|
    ensures pos + 1 + |Operands(s)| < |input|
    ensures input[pos].kind == Head(s).kind && input[pos].value == Head(s).value
    ensures var tok := if k < |Operands(s)| then Operands(s)[k] else NEWLINE;
      input[pos + 1 + k].kind == tok.kind && input[pos + 1 + k].value == tok.value
  {
    hide Head, Operands;
    var tokens := [Head(s)] + Operands(s) + [NEWLINE];
    assert tokens[0] == Head(s);
    assert tokens[1 + k] == if k < |Operands(s)| then Operands(s)[k] else NEWLINE;
    assert input[pos + 0].kind == tokens[0].kind;
    assert input[pos + (1 + k)].kind == tokens[1 + k].kind;
  }

  /** Only the terminal of the production is there. */
  lemma TerminalAt(input: seq<Lexem>, pos: nat, s: Stmt, k: nat, t: Terminal)
    requires Stands(input, pos, s) && k <= |Operands(s)| && t in OPERANDS
    ensures |Operands(s)| == |Tail(AltOf(s))|
    ensures Is(input, pos + 1 + k, t) <==> t == if k < |Operands(s)| then Tail(AltOf(s))[k] else Newline
  {
    hide Name, Plain, Operands, Tail, Stands, AltOf;
    StandsAt(input, pos, s, k);
    SameLength(s);
    if k < |Operands(s)| {
      OperandKinds(s, k);
      PlainExact(t, Tail(AltOf(s))[k]);
    } else {
      PlainExact(t, Newline);
      NewlineKind();
    }
  }

  lemma SameLength(s: Stmt)
    ensures |Operands(s)| == |Tail(AltOf(s))|
  {
  }

  lemma NewlineKind()
    ensures NEWLINE.kind == Plain(Newline) && Newline in OPERANDS
  {
  }

  /** The operands of a production agree with those of another as far as they go. */
  predicate TailFits(a: Alt, b: Alt) {
    |Tail(a)| <= |Tail(b)| && forall k :: 0 <= k < |Tail(a)| ==> Tail(a)[k] == Tail(b)[k]
  }

  /** No production reaches beyond the end of the line. */
  lemma TailEnds(input: seq<Lexem>, pos: nat, s: Stmt, a: Alt)
    requires Stands(input, pos, s) && Follows(input, pos + 1, Tail(a))
    ensures |Tail(a)| <= |Operands(s)|
  {
    hide Name, Operands, Tail, Stands, AltOf, Is;
    var k := |Operands(s)|;
    if |Tail(a)| > k {
      TailKinds(a, k);
      assert Is(input, pos + 1 + k, Tail(a)[k]);
      TerminalAt(input, pos, s, k, Tail(a)[k]);
    }
  }

  lemma FollowsFits(input: seq<Lexem>, pos: nat, s: Stmt, a: Alt)
    requires Stands(input, pos, s)
    ensures Follows(input, pos + 1, Tail(a)) <==> TailFits(a, AltOf(s))
  {
    hide Name, Operands, Tail, Stands, AltOf, Is;
    SameLength(s);
    StandsAt(input, pos, s, 0);
    if Follows(input, pos + 1, Tail(a)) {
      TailEnds(input, pos, s, a);
      forall k | 0 <= k < |Tail(a)| ensures Tail(a)[k] == Tail(AltOf(s))[k] {
        TailKinds(a, k);
        assert Is(input, pos + 1 + k, Tail(a)[k]);
        TerminalAt(input, pos, s, k, Tail(a)[k]);
      }
    }
    if TailFits(a, AltOf(s)) {
      forall k | 0 <= k < |Tail(a)| ensures Is(input, pos + 1 + k, Tail(a)[k]) {
        TailKinds(a, k);
        TerminalAt(input, pos, s, k, Tail(a)[k]);
      }
    }
  }

  /** The order in which the parser tries the productions. */
  function Rank(a: Alt): nat {
    match a
    case RegReg => 0
    case Imm => 1
    case Branch => 2
    case Load => 3
    case Store => 4
    case Jal => 5
    case Jalr => 6
    case Upper => 7
    case J => 8
    case Li => 9
    case Mv => 10
  }

  lemma FirstIs(input: seq<Lexem>, pos: nat, a: Alt)
    requires Applies(input, pos, a) && forall b :: Rank(b) < Rank(a) ==> !Applies(input, pos, b)
    ensures FirstAlt(input, pos) == Some(a)
  {
    hide Applies;
    assert forall b :: Rank(b) < Rank(a) ==> !Applies(input, pos, b);
    assert Rank(RegReg) == 0 && Rank(Imm) == 1 && Rank(Branch) == 2 && Rank(Load) == 3 && Rank(Store) == 4
      && Rank(Jal) == 5;
    assert Rank(Jalr) == 6 && Rank(Upper) == 7 && Rank(J) == 8 && Rank(Li) == 9 && Rank(Mv) == 10;
  }

  /** Earlier productions with fitting operands. */
  lemma EarlierFits(a: Alt, b: Alt)
    requires TailFits(a, b) && Rank(a) < Rank(b)
    ensures (a, b) in {(Branch, Jalr), (Load, Store), (Upper, Li)}
  {
    assert forall k :: 0 <= k < |Tail(a)| ==> Tail(a)[k] == Tail(b)[k];
    assert |Tail(a)| > 1 && Tail(a)[1] == Tail(b)[1];
    assert |Tail(a)| > 3 ==> Tail(a)[3] == Tail(b)[3];
    assert |Tail(a)| > 5 ==> Tail(a)[5] == Tail(b)[5];
  }

  // ----- heads -----

  /** The terminal a statement starts with. */
  function Opens(s: Stmt): Terminal {
    match s
    case OpReg(m, _, _, _) => Terminal.Insn(m)
    case OpImm(m, _, _, _) => Terminal.Insn(m)
    case If(m, _, _, _) => Terminal.Insn(m)
    case Fetch(m, _, _, _) => Terminal.Insn(m)
    case Put(m, _, _, _) => Terminal.Insn(m)
    case Call(_, _) => Terminal.Insn(JAL)
    case CallReg(_, _, _) => Terminal.Insn(JALR)
    case OpUpper(m, _, _) => Terminal.Insn(m)
    case Goto(_) => PseudoJ
    case Set(_, _) => PseudoLi
    case Copy(_, _) => PseudoMv
  }

  lemma OpensKind(s: Stmt)
    requires WellFormed(s)
    ensures Head(s).kind == Name(Opens(s)) && Opens(s) in Heads(AltOf(s))
    ensures Opens(s).Insn? ==> Opens(s).m != UNKNOWN
  {
    hide Heads, AltOf, Name, Spelling.KindOf, WellFormed;
    OpensIn(s);
    PseudoNames();
    if Opens(s).Insn? {
      KindIsName(Opens(s).m);
    }
  }

  lemma OpensIn(s: Stmt)
    requires WellFormed(s)
    ensures Opens(s) in Heads(AltOf(s)) && (Opens(s).Insn? ==> Opens(s).m != UNKNOWN)
  {
    hide Spelling.Reg.Ok;
  }

  /** The mnemonic of a statement is one its production starts with. */
  lemma HeadFits(input: seq<Lexem>, pos: nat, s: Stmt)
    requires pos < |input| && input[pos].kind == Head(s).kind && WellFormed(s)
    ensures IsHead(input, pos, AltOf(s))
  {
    hide Name, Head, Opens, AltOf, Heads;
    OpensKind(s);
    var k :| 0 <= k < |Heads(AltOf(s))| && Heads(AltOf(s))[k] == Opens(s);
    assert Is(input, pos, Heads(AltOf(s))[k]);
  }

  /** The letter that tells mnemonics of different productions apart. */
  lemma HeadLetter(a: Alt, t: Terminal)
    requires t in Heads(a)
    ensures |Name(t)| > 6 && (a in {Li, Mv, J} <==> Name(t)[0] == 'u')
    ensures a == Branch ==> Name(t)[6] == 'B'
    ensures a == Jalr ==> Name(t)[6] == 'J'
    ensures a == Load ==> Name(t)[6] == 'L'
    ensures a == Store ==> Name(t)[6] == 'S'
  {
    hide Name, MnemonicName;
    HeadKinds(a, t);
    if t.Insn? {
      InsnLetter(t.m);
      FirstLetters(t.m);
    } else {
      PseudoNames();
    }
  }

  lemma HeadKinds(a: Alt, t: Terminal)
    requires t in Heads(a)
    ensures if a in {Li, Mv, J} then t in {PseudoJ, PseudoLi, PseudoMv} else t.Insn?
    ensures a == Branch ==> t.m in {BEQ, BNE, BLT, BGE, BLTU, BGEU}
    ensures a == Jalr ==> t.m == JALR
    ensures a == Load ==> t.m in {LB, LH, LW, LBU, LHU}
    ensures a == Store ==> t.m in {SB, SH, SW}
  {
  }

  lemma FirstLetters(m: Mnemonic)
    ensures m in {BEQ, BNE, BLT, BGE, BLTU, BGEU} ==> MnemonicName(m)[0] == 'B'
    ensures m == JALR ==> MnemonicName(m)[0] == 'J'
    ensures m in {LB, LH, LW, LBU, LHU} ==> MnemonicName(m)[0] == 'L'
    ensures m in {SB, SH, SW} ==> MnemonicName(m)[0] == 'S'
  {
  }

  lemma InsnLetter(m: Mnemonic)
    ensures var name := Name(Terminal.Insn(m)); |name| > 6 && name[0] == 'i' && name[6] == MnemonicName(m)[0]
  {
  }

  lemma PseudoNames()
    ensures Name(PseudoJ) == "unsinsn::J" && Name(PseudoLi) == "unsinsn::LI" && Name(PseudoMv) == "unsinsn::MV"
  {
  }

  /** Productions with the same operands start differently. */
  lemma HeadClash(input: seq<Lexem>, pos: nat, s: Stmt, a: Alt)
    requires pos < |input| && input[pos].kind == Head(s).kind && WellFormed(s)
    requires (a, AltOf(s)) in {(Branch, Jalr), (Load, Store), (Upper, Li)}
    ensures !IsHead(input, pos, a)
  {
    hide IsHead, Head;
    HeadFits(input, pos, s);
    LetterAt(input, pos, AltOf(s));
    if IsHead(input, pos, a) {
      LetterAt(input, pos, a);
    }
  }

  lemma LetterAt(input: seq<Lexem>, pos: nat, a: Alt)
    requires IsHead(input, pos, a)
    ensures var kind := input[pos].kind;
      && |kind| > 6 && (a in {Li, Mv, J} <==> kind[0] == 'u')
      && (a == Branch ==> kind[6] == 'B') && (a == Jalr ==> kind[6] == 'J')
      && (a == Load ==> kind[6] == 'L') && (a == Store ==> kind[6] == 'S')
  {
    hide Name, Heads;
    var k :| 0 <= k < |Heads(a)| && Is(input, pos, Heads(a)[k]);
    HeadLetter(a, Heads(a)[k]);
    var kind, name := input[pos].kind, Name(Heads(a)[k]);
    assert kind[0] == name[0] && kind[6] == name[6];
  }

  /** The parser takes a statement for what it is. */
  lemma StmtAlt(input: seq<Lexem>, pos: nat, s: Stmt)
    requires Stands(input, pos, s) && WellFormed(s)
    ensures FirstAlt(input, pos) == Some(AltOf(s)) && Length(AltOf(s)) == 1 + |Operands(s)|
  {
    hide Head, Operands, Heads, Tail, AltOf, FirstAlt, Is, Stands, Follows, IsHead;
    StandsAt(input, pos, s, 0);
    SameLength(s);
    HeadFits(input, pos, s);
    FollowsFits(input, pos, s, AltOf(s));
    assert Applies(input, pos, AltOf(s));
    forall b | Rank(b) < Rank(AltOf(s)) ensures !Applies(input, pos, b) {
      FollowsFits(input, pos, s, b);
      if TailFits(b, AltOf(s)) {
        EarlierFits(b, AltOf(s));
        HeadClash(input, pos, s, b);
      }
    }
    FirstIs(input, pos, AltOf(s));
  }

  // ----- what the parser makes of it -----

  /** Operand k of a statement, read. */
  lemma OperandRead(input: seq<Lexem>, pos: nat, s: Stmt, k: nat)
    requires Stands(input, pos, s) && WellFormed(s) && k < |Operands(s)|
    ensures input[pos + 1 + k].value == Operands(s)[k].value
  {
    hide Head, Operands;
    StandsAt(input, pos, s, k);
  }

  lemma HeadRead(input: seq<Lexem>, pos: nat, s: Stmt)
    requires Stands(input, pos, s) && WellFormed(s)
    ensures Opens(s).Insn? ==> Str2Insn(input[pos].kind) == Opens(s).m
  {
    hide Operands, Str2Insn, Spelling.KindOf;
    StandsAt(input, pos, s, 0);
    OpensKind(s);
    if Opens(s).Insn? {
      InsnRead(Opens(s).m);
      KindIsName(Opens(s).m);
    }
  }

  lemma OperandsRead(input: seq<Lexem>, pos: nat, s: Stmt)
    requires Stands(input, pos, s) && WellFormed(s)
    ensures pos + 1 + |Operands(s)| < |input|
    ensures forall k :: 0 <= k < |Operands(s)| ==> input[pos + 1 + k].value == Operands(s)[k].value
  {
    hide Head, Operands;
    StandsAt(input, pos, s, 0);
    forall k | 0 <= k < |Operands(s)| ensures input[pos + 1 + k].value == Operands(s)[k].value {
      OperandRead(input, pos, s, k);
    }
  }

  /** The lines of the production are the lines the statement denotes. */
  lemma RegOperands(input: seq<Lexem>, pos: nat, s: Stmt, addr: int)
    requires Stands(input, pos, s) && WellFormed(s) && (s.OpReg? || s.CallReg?)
    ensures pos + Length(AltOf(s)) <= |input| && Lines(AltOf(s), input, pos, addr) == Denotes(s, addr)
  {
    hide Stands, Str2Insn, Str2Reg, Atoi, Spelling.Reg.Text, Number, Decimal, Head;
    OperandsRead(input, pos, s);
    HeadRead(input, pos, s);
    assert input[pos + 1 + 1].value == Operands(s)[1].value && input[pos + 1 + 3].value == Operands(s)[3].value
      && input[pos + 1 + 5].value == Operands(s)[5].value;
    match s
    case OpReg(_, rd, rs1, rs2) => RegRead(rd); RegRead(rs1); RegRead(rs2);
    case CallReg(rd, base, _) => RegRead(rd); RegRead(base);
  }

  lemma MixedOperands(input: seq<Lexem>, pos: nat, s: Stmt, addr: int)
    requires Stands(input, pos, s) && WellFormed(s) && (s.OpImm? || s.If?)
    ensures pos + Length(AltOf(s)) <= |input| && Lines(AltOf(s), input, pos, addr) == Denotes(s, addr)
  {
    hide Stands, Str2Insn, Str2Reg, Atoi, Spelling.Reg.Text, Number, Decimal, Head;
    OperandsRead(input, pos, s);
    HeadRead(input, pos, s);
    assert input[pos + 1 + 1].value == Operands(s)[1].value && input[pos + 1 + 3].value == Operands(s)[3].value
      && input[pos + 1 + 5].value == Operands(s)[5].value;
    match s
    case OpImm(_, rd, rs1, imm) => RegRead(rd); RegRead(rs1); NumberRead(imm);
    case If(_, rs1, rs2, _) => RegRead(rs1); RegRead(rs2);
  }

  lemma MemoryOperands(input: seq<Lexem>, pos: nat, s: Stmt, addr: int)
    requires Stands(input, pos, s) && WellFormed(s) && (s.Fetch? || s.Put?)
    ensures pos + Length(AltOf(s)) <= |input| && Lines(AltOf(s), input, pos, addr) == Denotes(s, addr)
  {
    hide Stands, Str2Insn, Str2Reg, Atoi, Spelling.Reg.Text, Number, Decimal, Head;
    OperandsRead(input, pos, s);
    HeadRead(input, pos, s);
    assert input[pos + 1 + 1].value == Operands(s)[1].value && input[pos + 1 + 3].value == Operands(s)[3].value
      && input[pos + 1 + 5].value == Operands(s)[5].value;
    match s
    case Fetch(_, rd, offset, base) => RegRead(rd); NumberRead(offset); RegRead(base);
    case Put(_, src, offset, base) => RegRead(src); NumberRead(offset); RegRead(base);
  }

  lemma FewOperands(input: seq<Lexem>, pos: nat, s: Stmt, addr: int)
    requires Stands(input, pos, s) && WellFormed(s) && (s.Call? || s.OpUpper? || s.Goto? || s.Set? || s.Copy?)
    ensures pos + Length(AltOf(s)) <= |input| && Lines(AltOf(s), input, pos, addr) == Denotes(s, addr)
  {
    hide Stands, Str2Insn, Str2Reg, Atoi, Spelling.Reg.Text, Number, Decimal, Head;
    OperandsRead(input, pos, s);
    HeadRead(input, pos, s);
    assert input[pos + 1 + 1].value == Operands(s)[1].value;
    assert !s.Goto? ==> input[pos + 1 + 3].value == Operands(s)[3].value;
    match s
    case Call(rd, _) => RegRead(rd);
    case OpUpper(_, rd, imm) => RegRead(rd); NumberRead(imm);
    case Goto(_) =>
    case Set(rd, imm) => RegRead(rd); NumberRead(imm);
    case Copy(rd, rs) => RegRead(rd); RegRead(rs);
  }

  lemma StmtLines(input: seq<Lexem>, pos: nat, s: Stmt, addr: int)
    requires Stands(input, pos, s) && WellFormed(s)
    ensures pos + Length(AltOf(s)) <= |input| && Lines(AltOf(s), input, pos, addr) == Denotes(s, addr)
    ensures |Denotes(s, addr)| == Words(Code(s))
  {
    hide Stands, Lines;
    if s.OpReg? || s.CallReg? {
      RegOperands(input, pos, s, addr);
    } else if s.OpImm? || s.If? {
      MixedOperands(input, pos, s, addr);
    } else if s.Fetch? || s.Put? {
      MemoryOperands(input, pos, s, addr);
    } else {
      FewOperands(input, pos, s, addr);
    }
  }

  // ----- whole programs -----

  lemma WrittenAt(input: seq<Lexem>, pos: nat, tokens: seq<Token>, k: nat)
    requires Written(input, pos, tokens) && k < |tokens|
    ensures pos + k < |input| && input[pos + k].kind == tokens[k].kind && input[pos + k].value == tokens[k].value
  {
  }

  lemma WrittenParts(input: seq<Lexem>, pos: nat, a: seq<Token>, b: seq<Token>)
    requires Written(input, pos, a + b)
    ensures Written(input, pos, a) && Written(input, pos + |a|, b)
  {
    forall k | 0 <= k < |a| ensures input[pos + k].kind == a[k].kind && input[pos + k].value == a[k].value {
      assert (a + b)[k] == a[k];
    }
    forall k | 0 <= k < |b|
      ensures input[pos + |a| + k].kind == b[k].kind && input[pos + |a| + k].value == b[k].value
    {
      assert (a + b)[|a| + k] == b[k];
      assert input[pos + (|a| + k)].kind == (a + b)[|a| + k].kind;
    }
  }

  /** A new line starts here, or the text ends. */
  predicate LineStarts(input: seq<Lexem>, pos: nat) {
    pos >= |input| || input[pos].kind == "label" || InsnKind(input[pos].kind)
  }

  lemma LineStartsAt(input: seq<Lexem>, pos: nat, items: seq<Item>)
    requires Written(input, pos, Tokens(items)) && pos + |Tokens(items)| == |input| && AllWellFormed(items)
    ensures LineStarts(input, pos)
  {
    hide Head, Operands, WellFormed;
    if items != [] {
      assert input[pos + 0].kind == Tokens(items)[0].kind;
      if items[0].Code? {
        HeadIsMnemonic(items[0].stmt);
      }
    }
  }

  lemma HeadIsMnemonic(s: Stmt)
    ensures InsnKind(Head(s).kind)
  {
  }

  lemma NoLayoutAt(input: seq<Lexem>, pos: nat)
    requires LineStarts(input, pos)
    ensures !IsLayout(input, pos)
  {
    hide Name, InsnKind, Plain;
    forall t | t in {Blank, Comment, Newline} ensures !Is(input, pos, t) {
      if Is(input, pos, t) {
        OtherIsNoInsn(input, pos, t);
        PlainExact(t, LabelDef);
        LabelKind();
      }
    }
  }

  lemma LabelKind()
    ensures Plain(LabelDef) == "label" && LabelDef in OPERANDS && Plain(Newline) == "newline"
  {
  }

  /** A newline with a new line behind it. */
  lemma NewlineEnds(input: seq<Lexem>, pos: nat)
    requires pos < |input| && input[pos].kind == "newline" && LineStarts(input, pos + 1)
    ensures EolEnd(input, pos) == Some(pos + 1)
    ensures Is(input, pos, Newline) && !Is(input, pos, LabelDef)
  {
    hide Name, Plain, LineStarts;
    LabelKind();
    PlainExact(Blank, Newline);
    PlainExact(Comment, Newline);
    PlainExact(Newline, Newline);
    PlainExact(LabelDef, Newline);
    NoLayoutAt(input, pos + 1);
  }

  /** One line: where it ends, and what it translates to. */
  lemma ItemParses(input: seq<Lexem>, pos: nat, i: Item, addr: int)
    requires Written(input, pos, ItemTokens(i)) && (i.Code? ==> WellFormed(i.stmt))
    requires LineStarts(input, pos + |ItemTokens(i)|)
    ensures var end := pos + |ItemTokens(i)|;
      && end <= |input| && LineEnd(input, pos) == Some(end - 1) && EolEnd(input, end - 1) == Some(end)
      && Translate(input, pos, addr) ==
         (if i.Label? then [LabelLine(i.name, addr)] else Denotes(i.stmt, addr))
         + Translate(input, end, addr + 4 * Words(i))
  {
    hide Is, Words, Denotes, WellFormed, Written, Translate, LineEnd, EolEnd, LineStarts, Stands, ItemTokens, Operands;
    var end := pos + |ItemTokens(i)|;
    LastToken(i);
    WrittenAt(input, pos, ItemTokens(i), |ItemTokens(i)| - 1);
    NewlineEnds(input, end - 1);
    Labels.SkipLayout(input, end - 1, addr + 4 * Words(i), Newline);
    if i.Label? {
      LabelParses(input, pos, i.name, addr);
    } else {
      CodeStands(input, pos, i.stmt);
      CodeParses(input, pos, i.stmt, addr);
    }
  }

  lemma CodeStands(input: seq<Lexem>, pos: nat, s: Stmt)
    requires Written(input, pos, ItemTokens(Code(s)))
    ensures Stands(input, pos, s)
  {
    hide Written, Operands, Head;
  }

  lemma LastToken(i: Item)
    ensures |ItemTokens(i)| == (if i.Label? then 2 else 2 + |Operands(i.stmt)|)
    ensures ItemTokens(i)[|ItemTokens(i)| - 1].kind == "newline"
  {
  }

  lemma LabelParses(input: seq<Lexem>, pos: nat, name: string, addr: int)
    requires Written(input, pos, ItemTokens(Label(name)))
    ensures LineEnd(input, pos) == Some(pos + 1)
    ensures Translate(input, pos, addr) == [LabelLine(name, addr)] + Translate(input, pos + 1, addr)
    ensures Words(Label(name)) == 0
  {
    hide Name, Plain, FirstAlt;
    WrittenAt(input, pos, ItemTokens(Label(name)), 0);
    LabelKind();
    PlainExact(LabelDef, LabelDef);
    assert (name + ":")[..|name|] == name;
  }

  lemma CodeParses(input: seq<Lexem>, pos: nat, s: Stmt, addr: int)
    requires Stands(input, pos, s) && WellFormed(s) && !Is(input, pos + 1 + |Operands(s)|, LabelDef)
    ensures LineEnd(input, pos) == Some(pos + 1 + |Operands(s)|)
    ensures pos + 1 + |Operands(s)| <= |input|
    ensures Translate(input, pos, addr) ==
      Denotes(s, addr) + Translate(input, pos + 1 + |Operands(s)|, addr + 4 * Words(Code(s)))
  {
    hide Name, Is, Lines, Head, Operands, FirstAlt, Denotes, WellFormed, Stands, Words;
    StmtAlt(input, pos, s);
    StmtLines(input, pos, s, addr);
    TranslateInsn(input, pos, addr);
  }

  lemma {:induction false} ItemsParse(input: seq<Lexem>, pos: nat, items: seq<Item>, addr: int)
    requires Written(input, pos, Tokens(items)) && pos + |Tokens(items)| == |input| && AllWellFormed(items)
    ensures RestOk(input, pos) && Translate(input, pos, addr) == Body(items, addr)
    decreases |items|
  {
    hide ItemTokens, LineStarts, Written, Words, Denotes, WellFormed, LineEnd, EolEnd, Translate;
    LineStartsAt(input, pos, items);
    if items == [] {
      Labels.TranslateNothing(input, addr);
      NothingLeft(input);
    } else {
      WrittenParts(input, pos, ItemTokens(items[0]), Tokens(items[1..]));
      var next := pos + |ItemTokens(items[0])|;
      LineStartsAt(input, next, items[1..]);
      ItemParses(input, pos, items[0], addr);
      ItemsParse(input, next, items[1..], addr + 4 * Words(items[0]));
    }
  }

  lemma NothingLeft(input: seq<Lexem>)
    ensures LineEnd(input, |input|) == None
  {
    hide Name;
  }

  lemma {:induction false} BodySize(items: seq<Item>, addr: int)
    ensures Count(Body(items, addr)) == Size(items)
    decreases |items|
  {
    hide Denotes, Words;
    if items != [] {
      var line := if items[0].Label? then [LabelLine(items[0].name, addr)] else Denotes(items[0].stmt, addr);
      BodySize(items[1..], addr + 4 * Words(items[0]));
      CountAppend(line, Body(items[1..], addr + 4 * Words(items[0])));
      LineCount(items[0], addr);
    }
  }

  lemma LineCount(i: Item, addr: int)
    ensures Count(if i.Label? then [LabelLine(i.name, addr)] else Denotes(i.stmt, addr)) == Words(i)
  {
    if i.Label? {
      assert Count([LabelLine(i.name, addr)]) == 0;
    } else {
      CountAll(Denotes(i.stmt, addr));
    }
  }

  /** Any list of well-formed statements and labels, written line by line, is accepted, and becomes
      exactly the lines it denotes between the start label and the closing jump. */
  lemma PrintedParses(input: seq<Lexem>, items: seq<Item>)
    requires Written(input, 0, Tokens(items)) && |Tokens(items)| == |input| && AllWellFormed(items)
    ensures Accepted(input) && Program(input) == Whole(items)
  {
    hide Name, Is, LineEnd, EolEnd, Translate, Tokens, Body, Count;
    ItemsParse(input, 0, items, 0);
    BodySize(items, 0);
    LineStartsAt(input, 0, items);
    NoLayoutAt(input, 0);
    if LineEnd(input, 0).None? {
      NoLayoutEnds(input);
    }
    var start := [LabelLine("PROG_START", 0)];
    CountAppend(start, Body(items, 0));
    assert Count(start) == 0 by { LineCount(Label("PROG_START"), 0); }
  }

  lemma NoLayoutEnds(input: seq<Lexem>)
    requires !IsLayout(input, 0)
    ensures EolEnd(input, 0) == Some(0)
  {
  }
}
