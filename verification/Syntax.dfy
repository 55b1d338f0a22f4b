/** The language the parser accepts, as a grammar over lexeme types, and that it accepts exactly that
    (compilateur/src/parser.c:63-445). */
module Syntax {
  import opened Options
  import opened AsmLine
  import opened Grammar
  import opened Spelling
  import S = Statements

  // ----- the grammar -----

  const REG := "symbole::register"
  const INT := "integer::dec"
  const REF := "symbole::label"

  /** The mnemonics a production starts with. A mnemonic that extends one of them is among them: types
      are compared as far as the shorter one goes. */
  function Starters(a: Alt): set<Mnemonic> {
    match a
    case RegReg => {ADD, ADDI, AND, ANDI, SLL, SLLI, SRL, SRLI, OR, ORI, XOR, XORI, SLT, SLTI, SLTU, SLTIU, SRA,
      SRAI, SUB}
    case Imm => {ADDI, ANDI, SLLI, SRLI, ORI, XORI, SLTI, SLTIU, SRAI}
    case Branch => {BEQ, BNE, BLT, BLTU, BGE, BGEU}
    case Load => {LB, LBU, LH, LHU, LW}
    case Store => {SB, SH, SW}
    case Jal => {JAL, JALR}
    case Jalr => {JALR}
    case Upper => {LUI, AUIPC}
    case _ => {}
  }

  ghost predicate Heading(a: Alt, kind: string) {
    || (exists m :: m in Starters(a) && kind == KindOf(m))
    || (a == J && kind == "unsinsn::J") || (a == Li && kind == "unsinsn::LI") || (a == Mv && kind == "unsinsn::MV")
  }

  /** The types behind the mnemonic. */
  function Operand(a: Alt): seq<string> {
    match a
    case RegReg => ["blank", REG, "comma", REG, "comma", REG]
    case Imm => ["blank", REG, "comma", REG, "comma", INT]
    case Branch => ["blank", REG, "comma", REG, "comma", REF]
    case Load => ["blank", REG, "comma", INT, "paren::left", REG, "paren::right"]
    case Store => ["blank", REG, "comma", INT, "paren::left", REG, "paren::right"]
    case Jal => ["blank", REG, "comma", REF]
    case Jalr => ["blank", REG, "comma", REG, "comma", REF]
    case Upper => ["blank", REG, "comma", INT]
    case J => ["blank", REF]
    case Li => ["blank", REG, "comma", INT]
    case Mv => ["blank", REG, "comma", REG]
  }

  ghost predicate Production(a: Alt, ks: seq<string>) {
    ks != [] && Heading(a, ks[0]) && ks[1..] == Operand(a)
  }

  ghost predicate Instruction(ks: seq<string>) {
    exists a :: Production(a, ks)
  }

  /** <code-line>: an instruction, an instruction and a label, or a label. */
  ghost predicate CodeLine(ks: seq<string>) {
    Instruction(ks) || (ks != [] && ks[|ks| - 1] == "label" && (|ks| == 1 || Instruction(ks[..|ks| - 1])))
  }

  /** [blank] [comment] newline [blank] */
  predicate Break(ks: seq<string>) {
    || ks == ["newline"] || ks == ["blank", "newline"] || ks == ["comment", "newline"]
    || ks == ["blank", "comment", "newline"] || ks == ["newline", "blank"] || ks == ["blank", "newline", "blank"]
    || ks == ["comment", "newline", "blank"] || ks == ["blank", "comment", "newline", "blank"]
  }

  /** <eol>: any number of them. */
  ghost predicate Breaks(ks: seq<string>) {
    ks == [] || exists n :: 0 < n <= |ks| && Break(ks[..n]) && Breaks(ks[n..])
  }

  /** (<code-line> <eol>)* */
  ghost predicate CodeLines(ks: seq<string>) {
    ks == [] || exists n, e :: 0 < n <= e <= |ks| && CodeLine(ks[..n]) && Breaks(ks[n..e]) && CodeLines(ks[e..])
  }

  /** <code> ::= [comment] [<code-line>] <eol> (<code-line> <eol>)* */
  ghost predicate Code(ks: seq<string>) {
    exists c, n, e :: 0 <= c <= n <= e <= |ks| && (c == 0 || ks[..c] == ["comment"])
      && (c == n || CodeLine(ks[c..n])) && Breaks(ks[n..e]) && CodeLines(ks[e..])
  }

  // ----- lexeme types -----

  const PLAIN: set<string> := {
    "blank", "comma", "comment", "newline", "label", "paren::left", "paren::right", REG, INT, REF}

  const PSEUDO: set<string> := {"unsinsn::J", "unsinsn::LI", "unsinsn::MV", "unsinsn::BLE"}

  /** The types in the rule file. */
  ghost predicate LexKind(kind: string) {
    kind in PLAIN || kind in PSEUDO || exists m :: m != UNKNOWN && kind == KindOf(m)
  }

  ghost predicate Lexed(input: seq<Lexem>) {
    forall k :: 0 <= k < |input| ==> LexKind(input[k].kind)
  }

  function Kinds(input: seq<Lexem>): (ks: seq<string>)
    ensures |ks| == |input| && forall k :: 0 <= k < |ks| ==> ks[k] == input[k].kind
  {
    seq(|input|, k requires 0 <= k < |input| => input[k].kind)
  }

  function TerminalOf(kind: string): Terminal {
    if kind == "blank" then Blank else if kind == "comma" then Comma else if kind == "comment" then Comment
    else if kind == "newline" then Newline else if kind == "label" then LabelDef
    else if kind == "paren::left" then ParenLeft else if kind == "paren::right" then ParenRight
    else if kind == REG then Register else if kind == INT then Integer else LabelRef
  }

  lemma TerminalKind(kind: string)
    requires kind in PLAIN
    ensures TerminalOf(kind) in S.OPERANDS && S.Plain(TerminalOf(kind)) == kind
  {
  }

  lemma PlainIn(t: Terminal)
    requires t in S.OPERANDS
    ensures S.Plain(t) in PLAIN
  {
  }

  lemma KindStarts(m: Mnemonic)
    ensures "insn::" <= KindOf(m) && InsnKind(KindOf(m)) && KindOf(m)[0] == 'i'
  {
  }

  lemma PseudoKinds(kind: string)
    requires kind in PSEUDO
    ensures InsnKind(kind) && kind[0] == 'u'
  {
  }

  /** A terminal that is no mnemonic stands for exactly one type. */
  lemma IsExact(input: seq<Lexem>, pos: nat, t: Terminal)
    requires pos < |input| && LexKind(input[pos].kind) && t in S.OPERANDS
    ensures Is(input, pos, t) <==> input[pos].kind == S.Plain(t)
  {
    hide Name, S.Plain, TerminalOf, InsnKind, KindOf, PLAIN, PSEUDO;
    var kind := input[pos].kind;
    S.PlainExact(t, t);
    if kind in PLAIN {
      TerminalKind(kind);
      S.PlainExact(t, TerminalOf(kind));
    } else {
      if kind in PSEUDO {
        PseudoKinds(kind);
      } else {
        var m :| m != UNKNOWN && kind == KindOf(m);
        KindStarts(m);
      }
      NoMnemonic(t);
      if Is(input, pos, t) {
        OtherIsNoInsn(input, pos, t);
      }
      PlainIn(t);
    }
  }

  lemma NoMnemonic(t: Terminal)
    requires t in S.OPERANDS
    ensures !t.Insn? && t !in {PseudoJ, PseudoLi, PseudoMv, PseudoBle}
  {
  }

  // ----- heads -----

  /** The mnemonics a production is looked up by. */
  function Looked(a: Alt): set<Mnemonic> {
    match a
    case RegReg => {ADD, AND, SLL, SRL, OR, XOR, SLT, SLTU, SRA, SUB}
    case Imm => {ADDI, ANDI, SLLI, SRLI, ORI, XORI, SLTI, SLTIU, SRAI}
    case Branch => {BEQ, BNE, BLT, BGE, BLTU, BGEU}
    case Load => {LB, LH, LW, LBU, LHU}
    case Store => {SB, SH, SW}
    case Jal => {JAL}
    case Jalr => {JALR}
    case Upper => {LUI, AUIPC}
    case _ => {}
  }

  lemma LookedUp(a: Alt, t: Terminal)
    requires t in Heads(a)
    ensures if a in {J, Li, Mv} then t == (if a == J then PseudoJ else if a == Li then PseudoLi else PseudoMv)
      else t.Insn? && t.m in Looked(a)
  {
  }

  lemma LookedReg(m: Mnemonic)
    requires m in Looked(RegReg)
    ensures Terminal.Insn(m) in Heads(RegReg) && m != UNKNOWN
  {
  }

  lemma LookedImm(m: Mnemonic)
    requires m in Looked(Imm)
    ensures Terminal.Insn(m) in Heads(Imm) && m != UNKNOWN
  {
  }

  lemma LookedOther(a: Alt, m: Mnemonic)
    requires a != RegReg && a != Imm && m in Looked(a)
    ensures Terminal.Insn(m) in Heads(a) && m != UNKNOWN
  {
  }

  lemma LookedIn(a: Alt, m: Mnemonic)
    requires m in Looked(a)
    ensures Terminal.Insn(m) in Heads(a) && m != UNKNOWN
  {
    hide Looked, Heads;
    if a == RegReg {
      LookedReg(m);
    } else if a == Imm {
      LookedImm(m);
    } else {
      LookedOther(a, m);
    }
  }

  lemma PseudoIn(a: Alt)
    ensures a == J ==> Heads(a) == [PseudoJ]
    ensures a == Li ==> Heads(a) == [PseudoLi]
    ensures a == Mv ==> Heads(a) == [PseudoMv]
  {
  }

  lemma LookedStarts(a: Alt)
    ensures Looked(a) <= Starters(a) && UNKNOWN !in Starters(a)
  {
  }

  lemma LongerReg(h: Mnemonic, m: Mnemonic)
    requires h in Looked(RegReg) && Extends(h, m)
    ensures m in Starters(RegReg)
  {
  }

  lemma LongerImm(h: Mnemonic, m: Mnemonic)
    requires h in Looked(Imm) && Extends(h, m)
    ensures m in Starters(Imm)
  {
  }

  lemma LongerBranch(h: Mnemonic, m: Mnemonic)
    requires h in Looked(Branch) && Extends(h, m)
    ensures m in Starters(Branch)
  {
  }

  lemma LongerLoad(h: Mnemonic, m: Mnemonic)
    requires h in Looked(Load) && Extends(h, m)
    ensures m in Starters(Load)
  {
  }

  lemma LongerOther(a: Alt, h: Mnemonic, m: Mnemonic)
    requires a !in {RegReg, Imm, Branch, Load} && h in Looked(a) && Extends(h, m)
    ensures m in Starters(a)
  {
  }

  /** A mnemonic at which a production is found: itself or an extension. */
  lemma LongerStarts(a: Alt, h: Mnemonic, m: Mnemonic)
    requires h in Looked(a) && (h == m || Extends(h, m))
    ensures m in Starters(a)
  {
    hide Looked, Starters, Extends;
    LookedStarts(a);
    if h != m {
      if a == RegReg {
        LongerReg(h, m);
      } else if a == Imm {
        LongerImm(h, m);
      } else if a == Branch {
        LongerBranch(h, m);
      } else if a == Load {
        LongerLoad(h, m);
      } else {
        LongerOther(a, h, m);
      }
    }
  }

  function Shorter(m: Mnemonic): Mnemonic {
    match m
    case ADDI => ADD case ANDI => AND case SLLI => SLL case SRLI => SRL case ORI => OR case XORI => XOR
    case SRAI => SRA case JALR => JAL case SLTI => SLT case SLTIU => SLT case _ => m
  }

  lemma StartersReg(m: Mnemonic)
    requires m in Starters(RegReg)
    ensures m in Looked(RegReg) || (Shorter(m) in Looked(RegReg) && Extends(Shorter(m), m))
  {
  }

  lemma StartersOther(a: Alt, m: Mnemonic)
    requires a != RegReg && m in Starters(a)
    ensures m in Looked(a) || (a == Jal && m == JALR)
  {
  }

  lemma StartersLooked(a: Alt, m: Mnemonic) returns (h: Mnemonic)
    requires m in Starters(a)
    ensures h in Looked(a) && (h == m || Extends(h, m)) && m != UNKNOWN
  {
    hide Looked, Starters, Extends, Shorter;
    LookedStarts(a);
    h := m;
    if m !in Looked(a) {
      if a == RegReg {
        StartersReg(m);
        h := Shorter(m);
      } else {
        StartersOther(a, m);
        h := JAL;
        JalIsShorter();
      }
    }
  }

  lemma JalIsShorter()
    ensures JAL in Looked(Jal) && Extends(JAL, JALR)
  {
  }

  /** One type is the front of another exactly when the mnemonics are. */
  lemma KindPrefix(h: Mnemonic, m: Mnemonic)
    requires h != UNKNOWN && m != UNKNOWN
    ensures Name(Terminal.Insn(h)) <= KindOf(m) <==> h == m || Extends(h, m)
  {
    hide Name, Spelled, Extends, Small, MnemonicName;
    KindIsName(h);
    CapitalName(h);
    CapitalName(m);
    FrontCapitals("insn::", Spelled(h), Spelled(m));
    if Spelled(h) <= Spelled(m) { PrefixExact(h, m); }
    ExtendsFront(h, m);
  }

  lemma FrontCapitals(head: string, x: string, y: string)
    requires Small(x) && Small(y)
    ensures head + Capitals(x) <= head + Capitals(y) <==> x <= y
  {
    var a, b := head + Capitals(x), head + Capitals(y);
    assert forall k :: 0 <= k < |x| ==> a[|head| + k] == Capital(x[k]);
    assert forall k :: 0 <= k < |y| ==> b[|head| + k] == Capital(y[k]);
    if a <= b {
      forall k | 0 <= k < |x| ensures x[k] == y[k] {
        assert a[|head| + k] == b[|head| + k];
      }
    }
  }

  lemma ImmediateFront(h: Mnemonic, m: Mnemonic)
    requires h in {ADD, AND, SLL, SRL, OR, XOR, SRA} && Extends(h, m)
    ensures Spelled(h) <= Spelled(m)
  {
  }

  lemma OtherFront(h: Mnemonic, m: Mnemonic)
    requires h in {BGE, BLT, JAL, LB, LH, SLT, SLTI} && Extends(h, m)
    ensures Spelled(h) <= Spelled(m)
  {
  }

  lemma ExtendsFront(h: Mnemonic, m: Mnemonic)
    ensures h == m || Extends(h, m) ==> Spelled(h) <= Spelled(m)
  {
    hide Extends, Spelled;
    if Extends(h, m) {
      Extended(h, m);
      if h in {ADD, AND, SLL, SRL, OR, XOR, SRA} {
        ImmediateFront(h, m);
      } else {
        OtherFront(h, m);
      }
    }
  }

  lemma HeadOfInsn(input: seq<Lexem>, pos: nat, a: Alt, m: Mnemonic)
    requires pos < |input| && m != UNKNOWN && input[pos].kind == KindOf(m)
    ensures IsHead(input, pos, a) <==> m in Starters(a)
  {
    hide Name, KindOf, Heads, Starters, Looked, Extends;
    KindStarts(m);
    if IsHead(input, pos, a) {
      var k :| 0 <= k < |Heads(a)| && Is(input, pos, Heads(a)[k]);
      LookedUp(a, Heads(a)[k]);
      if a in {J, Li, Mv} {
        PseudoLetter(Heads(a)[k]);
      } else {
        LookedIn(a, Heads(a)[k].m);
        KindPrefix(Heads(a)[k].m, m);
        LongerStarts(a, Heads(a)[k].m, m);
      }
    }
    if m in Starters(a) {
      var h := StartersLooked(a, m);
      LookedIn(a, h);
      KindPrefix(h, m);
      var k :| 0 <= k < |Heads(a)| && Heads(a)[k] == Terminal.Insn(h);
      assert Is(input, pos, Heads(a)[k]);
    }
  }

  lemma PseudoLetter(t: Terminal)
    requires t in {PseudoJ, PseudoLi, PseudoMv}
    ensures |Name(t)| > 0 && Name(t)[0] == 'u'
  {
  }

  lemma HeadOfPseudo(input: seq<Lexem>, pos: nat, a: Alt)
    requires pos < |input| && input[pos].kind in PSEUDO
    ensures IsHead(input, pos, a) <==> ((a == J && input[pos].kind == "unsinsn::J")
      || (a == Li && input[pos].kind == "unsinsn::LI") || (a == Mv && input[pos].kind == "unsinsn::MV"))
  {
    hide Name, Heads, Looked;
    var kind := input[pos].kind;
    PseudoKinds(kind);
    PseudoIn(a);
    S.PseudoNames();
    PseudoFronts(kind);
    if a !in {J, Li, Mv} && IsHead(input, pos, a) {
      var k :| 0 <= k < |Heads(a)| && Is(input, pos, Heads(a)[k]);
      LookedUp(a, Heads(a)[k]);
      S.InsnLetter(Heads(a)[k].m);
    }
    if a in {J, Li, Mv} {
      assert IsHead(input, pos, a) <==> Is(input, pos, Heads(a)[0]);
    }
  }

  lemma PseudoFronts(kind: string)
    requires kind in PSEUDO
    ensures "unsinsn::J" <= kind <==> kind == "unsinsn::J"
    ensures "unsinsn::LI" <= kind <==> kind == "unsinsn::LI"
    ensures "unsinsn::MV" <= kind <==> kind == "unsinsn::MV"
  {
    assert kind[9] in {'J', 'L', 'M', 'B'};
    assert "unsinsn::J"[9] == 'J' && "unsinsn::LI"[9] == 'L' && "unsinsn::MV"[9] == 'M';
  }

  lemma HeadOfPlain(input: seq<Lexem>, pos: nat, a: Alt)
    requires pos < |input| && input[pos].kind in PLAIN
    ensures !IsHead(input, pos, a) && !InsnKind(input[pos].kind)
  {
    hide Name, Heads, S.Plain, InsnKind, PLAIN;
    var t := TerminalOf(input[pos].kind);
    TerminalKind(input[pos].kind);
    NoMnemonic(t);
    S.PlainExact(t, t);
    OtherIsNoInsn(input, pos, t);
    if IsHead(input, pos, a) {
      HeadIsInsn(input, pos, a);
    }
  }

  lemma HeadingPlain(kind: string, a: Alt)
    requires kind in PLAIN && !InsnKind(kind)
    ensures !Heading(a, kind)
  {
    hide KindOf, Starters, PLAIN, InsnKind;
    StartersKinds(a);
    ThesePseudo();
  }

  lemma HeadingPseudo(kind: string, a: Alt)
    requires kind in PSEUDO
    ensures Heading(a, kind) <==> ((a == J && kind == "unsinsn::J")
      || (a == Li && kind == "unsinsn::LI") || (a == Mv && kind == "unsinsn::MV"))
  {
    hide KindOf, Starters, PSEUDO, InsnKind;
    StartersKinds(a);
    PseudoKinds(kind);
  }

  lemma NotPseudo(kind: string)
    requires kind != "" && kind[0] == 'i'
    ensures kind !in {"unsinsn::J", "unsinsn::LI", "unsinsn::MV"}
  {
  }

  lemma HeadingInsn(m: Mnemonic, a: Alt)
    requires m != UNKNOWN
    ensures Heading(a, KindOf(m)) <==> m in Starters(a)
  {
    hide KindOf, Starters, InsnKind, PSEUDO, Str2Insn;
    LookedStarts(a);
    KindStarts(m);
    NotPseudo(KindOf(m));
    if n :| n in Starters(a) && KindOf(m) == KindOf(n) {
      InsnRead(m);
      InsnRead(n);
    }
  }

  /** Which types a production starts with. */
  lemma HeadExact(input: seq<Lexem>, pos: nat, a: Alt)
    requires pos < |input| && LexKind(input[pos].kind)
    ensures IsHead(input, pos, a) <==> Heading(a, input[pos].kind)
  {
    hide IsHead, KindOf, Starters, PLAIN, PSEUDO, InsnKind, Heading;
    var kind := input[pos].kind;
    if kind in PLAIN {
      HeadOfPlain(input, pos, a);
      HeadingPlain(kind, a);
    } else if kind in PSEUDO {
      HeadOfPseudo(input, pos, a);
      HeadingPseudo(kind, a);
    } else {
      var m :| m != UNKNOWN && kind == KindOf(m);
      HeadOfInsn(input, pos, a, m);
      HeadingInsn(m, a);
    }
  }

  lemma ThesePseudo()
    ensures InsnKind("unsinsn::J") && InsnKind("unsinsn::LI") && InsnKind("unsinsn::MV")
    ensures {"unsinsn::J", "unsinsn::LI", "unsinsn::MV"} <= PSEUDO
  {
  }

  lemma StartersKinds(a: Alt)
    ensures forall m :: m in Starters(a) ==> InsnKind(KindOf(m)) && KindOf(m)[0] == 'i' && KindOf(m) != ""
  {
    hide KindOf, InsnKind, Starters;
    forall m | m in Starters(a) ensures InsnKind(KindOf(m)) && KindOf(m) != "" && KindOf(m)[0] == 'i' {
      KindStarts(m);
    }
  }

  // ----- operands -----

  lemma OperandIs(a: Alt, k: nat)
    requires k < |Tail(a)|
    ensures |Operand(a)| == |Tail(a)| && Tail(a)[k] in S.OPERANDS && Operand(a)[k] == S.Plain(Tail(a)[k])
  {
    assert k == 0 || k == 1 || k == 2 || k == 3 || k == 4 || k == 5 || k == 6;
  }

  lemma SameCount(a: Alt)
    ensures |Operand(a)| == |Tail(a)|
  {
  }

  /** A production applies exactly where its types stand. */
  lemma AppliesExact(input: seq<Lexem>, pos: nat, a: Alt)
    requires Lexed(input) && pos <= |input|
    ensures Applies(input, pos, a) <==>
      pos + Length(a) <= |input| && Production(a, Kinds(input)[pos..pos + Length(a)])
  {
    hide IsHead, Heading, Operand, Tail, LexKind, Is;
    SameCount(a);
    if pos + Length(a) <= |input| {
      var ks := Kinds(input)[pos..pos + Length(a)];
      HeadExact(input, pos, a);
      assert ks[0] == input[pos].kind;
      forall k | 0 <= k < |Tail(a)| ensures Is(input, pos + 1 + k, Tail(a)[k]) <==> ks[1..][k] == Operand(a)[k] {
        OperandIs(a, k);
        IsExact(input, pos + 1 + k, Tail(a)[k]);
      }
      if ks[1..] == Operand(a) {
        assert Follows(input, pos + 1, Tail(a));
      }
      if Follows(input, pos + 1, Tail(a)) {
        forall k | 0 <= k < |Tail(a)| ensures ks[1..][k] == Operand(a)[k] {
          assert Is(input, pos + 1 + k, Tail(a)[k]);
        }
        assert ks[1..] == Operand(a);
      }
    }
  }

  /** Two productions at the same place are equally long. */
  lemma SameLength(a: Alt, b: Alt, ks: seq<string>, n: nat, k: nat)
    requires n <= |ks| && k <= |ks| && Production(a, ks[..n]) && Production(b, ks[..k])
    ensures n == k
  {
    hide KindOf, Heading, Operand;
    assert ks[..n][0] == ks[0] && ks[..k][0] == ks[0];
    if n < k {
      assert ks[..n][1..] == ks[..k][1..][..n - 1];
      ShorterTail(a, b);
      ApartHeads(a, b, ks[0]);
    }
    if k < n {
      assert ks[..k][1..] == ks[..n][1..][..k - 1];
      ShorterTail(b, a);
      ApartHeads(b, a, ks[0]);
    }
  }

  /** Productions whose types are the first types of a longer one. */
  lemma ShorterTail(a: Alt, b: Alt)
    requires |Operand(a)| < |Operand(b)| && Operand(a) == Operand(b)[..|Operand(a)|]
    ensures (a in {Upper, Li} && b in {Load, Store}) || (a == Mv && b in {RegReg, Imm, Branch, Jalr})
  {
    var n := |Operand(a)|;
    assert n > 1 ==> Operand(a)[1] == Operand(b)[..n][1] == Operand(b)[1];
    assert n > 3 ==> Operand(a)[3] == Operand(b)[..n][3] == Operand(b)[3];
  }

  lemma ApartHeads(a: Alt, b: Alt, kind: string)
    requires (a in {Upper, Li} && b in {Load, Store}) || (a == Mv && b in {RegReg, Imm, Branch, Jalr})
    ensures !Heading(a, kind) || !Heading(b, kind)
  {
    hide KindOf, Starters;
    StartersKinds(b);
    LookedStarts(b);
    LookedStarts(a);
    UpperApart();
    if m :| m in Starters(b) && kind == KindOf(m) {
      InsnRead(m);
      if n :| n in Starters(a) && kind == KindOf(n) {
        InsnRead(n);
      }
    }
  }

  lemma UpperApart()
    ensures Starters(Upper) !! Starters(Load) && Starters(Upper) !! Starters(Store)
    ensures Starters(Li) == Starters(Mv) == {}
  {
  }

  // ----- lines -----

  lemma FirstOf(input: seq<Lexem>, pos: nat)
    ensures FirstAlt(input, pos).None? <==> forall a :: !Applies(input, pos, a)
  {
    hide Applies;
    if a :| Applies(input, pos, a) {
      match a
      case RegReg => case Imm => case Branch => case Load => case Store => case Jal => case Jalr =>
      case Upper => case J => case Li => case Mv =>
    }
  }

  /** An instruction at `pos`, and how long it is. */
  lemma InstructionExact(input: seq<Lexem>, pos: nat, n: nat)
    requires Lexed(input) && pos + n <= |input|
    ensures Instruction(Kinds(input)[pos..pos + n]) <==>
      FirstAlt(input, pos).Some? && Length(FirstAlt(input, pos).value) == n
  {
    hide Applies, Production, Operand, Tail, LexKind, FirstAlt;
    var ks := Kinds(input)[pos..];
    FirstOf(input, pos);
    if Instruction(Kinds(input)[pos..pos + n]) {
      var a :| Production(a, Kinds(input)[pos..pos + n]);
      ProductionLength(a, Kinds(input)[pos..pos + n]);
      AppliesExact(input, pos, a);
      var b := FirstAlt(input, pos).value;
      AppliesExact(input, pos, b);
      assert ks[..n] == Kinds(input)[pos..pos + n] && ks[..Length(b)] == Kinds(input)[pos..pos + Length(b)];
      SameLength(a, b, ks, n, Length(b));
    }
    if FirstAlt(input, pos).Some? {
      AppliesExact(input, pos, FirstAlt(input, pos).value);
    }
  }

  lemma ProductionLength(a: Alt, ks: seq<string>)
    requires Production(a, ks)
    ensures |ks| == Length(a)
  {
    SameCount(a);
  }

  const LAYOUT: set<string> := {"blank", "comment", "newline"}

  lemma KindAt(input: seq<Lexem>, pos: nat)
    requires Lexed(input) && pos < |input|
    ensures Is(input, pos, LabelDef) <==> Kinds(input)[pos] == "label"
    ensures Is(input, pos, Blank) <==> Kinds(input)[pos] == "blank"
    ensures Is(input, pos, Comment) <==> Kinds(input)[pos] == "comment"
    ensures Is(input, pos, Newline) <==> Kinds(input)[pos] == "newline"
    ensures IsLayout(input, pos) <==> Kinds(input)[pos] in LAYOUT
  {
    hide Is, LexKind;
    IsExact(input, pos, LabelDef);
    IsExact(input, pos, Blank);
    IsExact(input, pos, Comment);
    IsExact(input, pos, Newline);
  }

  lemma HeadingKind(a: Alt, kind: string)
    requires Heading(a, kind)
    ensures InsnKind(kind) && kind !in LAYOUT && kind != "label"
  {
    hide KindOf, Starters;
    StartersKinds(a);
    assert kind[0] == 'i' || kind[0] == 'u';
    assert "insn::" <= kind ==> kind[0] == 'i';
  }

  lemma CodeLineStarts(ks: seq<string>)
    requires CodeLine(ks)
    ensures ks != [] && ks[0] !in LAYOUT && (ks[0] == "label" ==> |ks| == 1)
  {
    hide Heading, Operand;
    if Instruction(ks) {
      var a :| Production(a, ks);
      HeadingKind(a, ks[0]);
    } else if |ks| > 1 {
      var a :| Production(a, ks[..|ks| - 1]);
      HeadingKind(a, ks[0]);
    }
  }

  lemma LineSound(input: seq<Lexem>, pos: nat, end: nat)
    requires Lexed(input) && pos <= |input| && LineEnd(input, pos) == Some(end)
    ensures CodeLine(Kinds(input)[pos..end])
  {
    hide Is, LexKind, FirstAlt, Instruction, Tail;
    var ks := Kinds(input)[pos..end];
    if Is(input, pos, LabelDef) {
      KindAt(input, pos);
    } else {
      var n := Length(FirstAlt(input, pos).value);
      InstructionExact(input, pos, n);
      if end == pos + n + 1 {
        KindAt(input, pos + n);
        assert ks[..n] == Kinds(input)[pos..pos + n];
      }
    }
  }

  lemma LineComplete(input: seq<Lexem>, pos: nat, end: nat)
    requires Lexed(input) && pos <= end <= |input| && CodeLine(Kinds(input)[pos..end])
    ensures LineEnd(input, pos) == Some(end)
            || (end < |input| && Kinds(input)[end] == "label" && LineEnd(input, pos) == Some(end + 1))
  {
    hide Is, LexKind, FirstAlt, Instruction, Tail, Translate, Lines, Kinds, IsLayout;
    var ks := Kinds(input)[pos..end];
    CodeLineStarts(ks);
    KindAt(input, pos);
    if end < |input| { KindAt(input, end); }
    if Instruction(ks) {
      InstructionExact(input, pos, end - pos);
      TranslateInsn(input, pos, 0);
    } else if |ks| > 1 {
      assert ks[..|ks| - 1] == Kinds(input)[pos..end - 1];
      InstructionExact(input, pos, end - 1 - pos);
      TranslateInsn(input, pos, 0);
      KindAt(input, end - 1);
    }
  }

  // ----- ends of lines -----

  lemma BreakStarts(ks: seq<string>)
    requires Break(ks)
    ensures 0 < |ks| && ks[0] in LAYOUT && (ks[0] != "newline" ==> Break(ks[1..]))
  {
  }

  lemma BreaksStart(ks: seq<string>)
    requires Breaks(ks) && ks != []
    ensures ks[0] in LAYOUT && (ks[0] != "newline" ==> |ks| > 1 && Breaks(ks[1..]))
  {
    hide Break;
    var n :| 0 < n <= |ks| && Break(ks[..n]) && Breaks(ks[n..]);
    BreakStarts(ks[..n]);
    if ks[0] != "newline" {
      BreakStarts(ks[..n][1..]);
      assert ks[..n][1..] == ks[1..][..n - 1] && ks[1..][n - 1..] == ks[n..];
    }
  }

  /** The parts of a break, each there or not. */
  lemma BreakParts(ks: seq<string>) returns (b: nat, c: nat, d: nat)
    requires Break(ks)
    ensures b <= 1 && c <= 1 && d <= 1 && |ks| == b + c + 1 + d
    ensures (b == 1 <==> ks[0] == "blank") && (c == 1 <==> ks[b] == "comment") && ks[b + c] == "newline"
    ensures d == 1 <==> ks[|ks| - 1] == "blank"
    ensures d == 1 ==> ks[b + c + 1] == "blank"
  {
    b := if ks[0] == "blank" then 1 else 0;
    c := if ks[b] == "comment" then 1 else 0;
    d := |ks| - b - c - 1;
  }

  lemma EolStep(input: seq<Lexem>, pos: nat, b: nat, c: nat)
    requires pos <= |input| && b <= 1 && c <= 1 && IsLayout(input, pos)
    requires (b == 1 <==> Is(input, pos, Blank)) && (c == 1 <==> Is(input, pos + b, Comment))
    requires Is(input, pos + b + c, Newline)
    ensures var end := pos + b + c + 1;
      EolEnd(input, pos) == EolEnd(input, if Is(input, end, Blank) then end + 1 else end)
  {
    hide Is, IsLayout;
  }

  lemma BreakKinds(input: seq<Lexem>, pos: nat, b: nat, c: nat)
    requires Lexed(input) && pos + b + c < |input| && b <= 1 && c <= 1
    requires b == 1 <==> Kinds(input)[pos] == "blank"
    requires c == 1 <==> Kinds(input)[pos + b] == "comment"
    requires Kinds(input)[pos + b + c] == "newline"
    ensures IsLayout(input, pos) && (b == 1 <==> Is(input, pos, Blank)) && (c == 1 <==> Is(input, pos + b, Comment))
    ensures Is(input, pos + b + c, Newline)
    ensures var end := pos + b + c + 1; Is(input, end, Blank) <==> end < |input| && Kinds(input)[end] == "blank"
  {
    hide Is, LexKind, IsLayout;
    KindAt(input, pos);
    KindAt(input, pos + b);
    KindAt(input, pos + b + c);
    if pos + b + c + 1 < |input| { KindAt(input, pos + b + c + 1); }
    assert Is(input, pos + b + c + 1, Blank) ==> pos + b + c + 1 < |input|;
  }

  /** One break: where the next one starts. */
  lemma BreakEnd(input: seq<Lexem>, pos: nat, n: nat)
    requires Lexed(input) && 0 < n <= n + pos <= |input| && Break(Kinds(input)[pos..pos + n])
    ensures IsLayout(input, pos)
    ensures EolEnd(input, pos) == EolEnd(input,
      if pos + n < |input| && Kinds(input)[pos + n] == "blank" && Kinds(input)[pos + n - 1] != "blank" then pos + n + 1
      else pos + n)
  {
    hide Is, LexKind, Break, EolEnd, IsLayout;
    var ks := Kinds(input)[pos..pos + n];
    var b, c, d := BreakParts(ks);
    assert ks[0] == Kinds(input)[pos] && ks[b] == Kinds(input)[pos + b] && ks[b + c] == Kinds(input)[pos + b + c];
    assert ks[n - 1] == Kinds(input)[pos + n - 1];
    BreakKinds(input, pos, b, c);
    EolStep(input, pos, b, c);
  }

  lemma NewlineNeeded(input: seq<Lexem>, pos: nat, b: nat, c: nat)
    requires pos <= |input| && b <= 1 && c <= 1 && IsLayout(input, pos) && EolEnd(input, pos).Some?
    requires (b == 1 <==> Is(input, pos, Blank)) && (c == 1 <==> Is(input, pos + b, Comment))
    ensures Is(input, pos + b + c, Newline)
  {
    hide Is, IsLayout;
  }

  /** A break that the parser takes. */
  lemma EolBreak(input: seq<Lexem>, pos: nat) returns (end: nat)
    requires Lexed(input) && pos <= |input| && IsLayout(input, pos) && EolEnd(input, pos).Some?
    ensures pos < end <= |input| && Break(Kinds(input)[pos..end]) && EolEnd(input, end) == EolEnd(input, pos)
  {
    hide Is, LexKind, Break, EolEnd, IsLayout;
    var b := if Is(input, pos, Blank) then 1 else 0;
    var c := if Is(input, pos + b, Comment) then 1 else 0;
    var d := if Is(input, pos + b + c + 1, Blank) then 1 else 0;
    NewlineNeeded(input, pos, b, c);
    KindAt(input, pos);
    KindAt(input, pos + b);
    KindAt(input, pos + b + c);
    if d == 1 { KindAt(input, pos + b + c + 1); }
    EolStep(input, pos, b, c);
    end := pos + b + c + 1 + d;
    var ks := Kinds(input)[pos..end];
    assert ks[0] == Kinds(input)[pos] && ks[b] == Kinds(input)[pos + b] && ks[b + c] == Kinds(input)[pos + b + c];
    PartsBreak(Kinds(input)[pos..end], b, c, d);
  }

  lemma PartsBreak(ks: seq<string>, b: nat, c: nat, d: nat)
    requires b <= 1 && c <= 1 && d <= 1 && |ks| == b + c + 1 + d
    requires (b == 1 ==> ks[0] == "blank") && (c == 1 ==> ks[b] == "comment") && ks[b + c] == "newline"
    requires d == 1 ==> ks[b + c + 1] == "blank"
    ensures Break(ks)
  {
  }

  lemma {:induction false} EolSound(input: seq<Lexem>, pos: nat, end: nat)
    requires Lexed(input) && pos <= |input| && EolEnd(input, pos) == Some(end)
    ensures Breaks(Kinds(input)[pos..end])
    decreases |input| - pos
  {
    hide Is, LexKind, Break, IsLayout;
    if IsLayout(input, pos) {
      var next := EolBreak(input, pos);
      EolSound(input, next, end);
      var ks := Kinds(input)[pos..end];
      assert ks[..next - pos] == Kinds(input)[pos..next] && ks[next - pos..] == Kinds(input)[next..end];
    }
  }

  /** No layout stands here. */
  ghost predicate Ended(input: seq<Lexem>, pos: nat) {
    pos >= |input| || Kinds(input)[pos] !in LAYOUT
  }

  lemma BreakSplit(input: seq<Lexem>, pos: nat, end: nat) returns (next: nat)
    requires pos < end <= |input| && Breaks(Kinds(input)[pos..end])
    ensures pos < next <= end && Break(Kinds(input)[pos..next]) && Breaks(Kinds(input)[next..end])
  {
    hide Break, Kinds;
    var ks := Kinds(input)[pos..end];
    var n :| 0 < n <= |ks| && Break(ks[..n]) && Breaks(ks[n..]);
    next := pos + n;
    assert ks[..n] == Kinds(input)[pos..next];
    assert ks[n..] == Kinds(input)[next..end];
  }

  lemma {:induction false} EolComplete(input: seq<Lexem>, pos: nat, end: nat)
    requires Lexed(input) && pos <= end <= |input| && Breaks(Kinds(input)[pos..end]) && Ended(input, end)
    ensures EolEnd(input, pos) == Some(end)
    decreases |input| - pos
  {
    hide Is, LexKind, Break, Breaks, IsLayout, EolEnd, Kinds;
    if pos == end {
      if pos < |input| { KindAt(input, pos); } else { NoLayoutLeft(input, pos); }
      EolStays(input, pos);
    } else {
      var next := BreakSplit(input, pos, end);
      BreakEnd(input, pos, next - pos);
      if next < |input| && Kinds(input)[next] == "blank" && Kinds(input)[next - 1] != "blank" {
        assert next != end;
        BreaksStart(Kinds(input)[next..end]);
        assert Kinds(input)[next..end][1..] == Kinds(input)[next + 1..end];
        EolComplete(input, next + 1, end);
      } else {
        EolComplete(input, next, end);
      }
    }
  }

  lemma NoLayoutLeft(input: seq<Lexem>, pos: nat)
    requires pos >= |input|
    ensures !IsLayout(input, pos)
  {
    hide Name;
  }

  lemma EolStays(input: seq<Lexem>, pos: nat)
    requires pos <= |input| && !IsLayout(input, pos)
    ensures EolEnd(input, pos) == Some(pos)
  {
  }

  // ----- programs -----

  lemma {:induction false} RestSound(input: seq<Lexem>, pos: nat)
    requires Lexed(input) && pos <= |input| && RestOk(input, pos)
    ensures CodeLines(Kinds(input)[pos..])
    decreases |input| - pos
  {
    hide Is, LexKind, CodeLine, Breaks, EolEnd, LineEnd;
    var p := LineEnd(input, pos);
    if p.Some? {
      var q := EolEnd(input, p.value).value;
      LineSound(input, pos, p.value);
      EolSound(input, p.value, q);
      RestSound(input, q);
      Slices(Kinds(input), pos, p.value - pos, q - pos);
      MoreLines(Kinds(input)[pos..], p.value - pos, q - pos);
    }
  }

  lemma Slices(ks: seq<string>, pos: nat, i: nat, j: nat)
    requires i <= j && pos + j <= |ks|
    ensures ks[pos..][..i] == ks[pos..pos + i] && ks[pos..][j..] == ks[pos + j..]
    ensures ks[pos..][i..j] == ks[pos + i..pos + j]
  {
  }

  lemma MoreLines(ks: seq<string>, n: nat, e: nat)
    requires 0 < n <= e <= |ks| && CodeLine(ks[..n]) && Breaks(ks[n..e]) && CodeLines(ks[e..])
    ensures CodeLines(ks)
  {
  }

  /** Lines from here on start with a line or are none. */
  lemma LinesEnded(input: seq<Lexem>, pos: nat)
    requires pos <= |input| && CodeLines(Kinds(input)[pos..])
    ensures Ended(input, pos)
  {
    hide CodeLine, Breaks;
    var ks := Kinds(input)[pos..];
    if ks != [] {
      var n, e :| 0 < n <= e <= |ks| && CodeLine(ks[..n]) && Breaks(ks[n..e]) && CodeLines(ks[e..]);
      CodeLineStarts(ks[..n]);
    }
  }

  /** The first line, what ends it, and the lines behind. */
  ghost predicate Splits(input: seq<Lexem>, pos: nat, n: nat, e: nat) {
    pos < n <= e <= |input| && CodeLine(Kinds(input)[pos..n]) && Breaks(Kinds(input)[n..e])
    && CodeLines(Kinds(input)[e..])
  }

  lemma Split(input: seq<Lexem>, pos: nat) returns (n: nat, e: nat)
    requires pos < |input| && CodeLines(Kinds(input)[pos..])
    ensures Splits(input, pos, n, e)
  {
    hide CodeLine, Breaks, Kinds;
    var ks := Kinds(input)[pos..];
    var i, j :| 0 < i <= j <= |ks| && CodeLine(ks[..i]) && Breaks(ks[i..j]) && CodeLines(ks[j..]);
    n, e := pos + i, pos + j;
    Slices(Kinds(input), pos, i, j);
  }

  /** The parser's line may take the label of the next one. */
  lemma FirstLine(input: seq<Lexem>, pos: nat, n: nat, e: nat) returns (end: nat, next: nat)
    requires Lexed(input) && Splits(input, pos, n, e)
    ensures LineEnd(input, pos) == Some(end) && pos < end <= next <= |input| && EolEnd(input, end) == Some(next)
    ensures CodeLines(Kinds(input)[next..])
  {
    hide CodeLine, Breaks, LineEnd, EolEnd, LexKind;
    LineComplete(input, pos, n);
    end, next := n, e;
    if LineEnd(input, pos) != Some(n) {
      if n < e {
        BreaksStart(Kinds(input)[n..e]);
      }
      var i, j := Split(input, n);
      CodeLineStarts(Kinds(input)[n..i]);
      end, next := i, j;
    }
    LinesEnded(input, next);
    EolComplete(input, end, next);
  }

  lemma {:induction false} RestComplete(input: seq<Lexem>, pos: nat)
    requires Lexed(input) && pos <= |input| && CodeLines(Kinds(input)[pos..])
    ensures RestOk(input, pos)
    decreases |input| - pos
  {
    hide CodeLine, Breaks, LineEnd, EolEnd, LexKind, CodeLines;
    if pos == |input| {
      S.NothingLeft(input);
    } else {
      var n, e := Split(input, pos);
      var end, next := FirstLine(input, pos, n, e);
      RestComplete(input, next);
    }
  }

  lemma CodeSound(input: seq<Lexem>)
    requires Lexed(input) && Accepted(input)
    ensures Code(Kinds(input))
  {
    hide Is, LexKind, CodeLine, Breaks, EolEnd, LineEnd, CodeLines, RestOk;
    var c := if Is(input, 0, Comment) then 1 else 0;
    var p := LineEnd(input, c);
    var n := if p.Some? then p.value else c;
    var e := EolEnd(input, n).value;
    if c == 1 {
      KindAt(input, 0);
      assert Kinds(input)[..1] == ["comment"];
    }
    if p.Some? { LineSound(input, c, n); }
    EolSound(input, n, e);
    RestSound(input, e);
    CodeParts(Kinds(input), c, n, e);
  }

  lemma CodeParts(ks: seq<string>, c: nat, n: nat, e: nat)
    requires c <= n <= e <= |ks| && (c == 0 || ks[..c] == ["comment"])
    requires (c == n || CodeLine(ks[c..n])) && Breaks(ks[n..e]) && CodeLines(ks[e..])
    ensures Code(ks)
  {
    hide CodeLine, Breaks, CodeLines;
  }

  /** Where the code starts: behind a first comment. */
  lemma CodeStart(input: seq<Lexem>) returns (c: nat, n: nat, e: nat)
    requires Lexed(input) && Code(Kinds(input))
    ensures c <= n <= e <= |input| && c == (if Is(input, 0, Comment) then 1 else 0)
    ensures (c == n || CodeLine(Kinds(input)[c..n])) && Breaks(Kinds(input)[n..e]) && CodeLines(Kinds(input)[e..])
  {
    hide Is, LexKind, CodeLine, Breaks, CodeLines;
    var ks := Kinds(input);
    c, n, e :| 0 <= c <= n <= e <= |ks| && (c == 0 || ks[..c] == ["comment"])
      && (c == n || CodeLine(ks[c..n])) && Breaks(ks[n..e]) && CodeLines(ks[e..]);
    if ks != [] { KindAt(input, 0); }
    if c > 0 {
      assert ks[..c][0] == "comment" && |ks[..c]| == c;
    } else if Is(input, 0, Comment) {
      if n > 0 { CodeLineStarts(ks[c..n]); }
      if e == 0 { LinesEnded(input, 0); }
      BreaksStart(ks[n..e]);
      assert ks[n..e][1..] == ks[1..e];
      c, n := 1, 1;
    }
  }

  lemma CodeComplete(input: seq<Lexem>)
    requires Lexed(input) && Code(Kinds(input))
    ensures Accepted(input)
  {
    hide Is, LexKind, CodeLine, Breaks, CodeLines, LineEnd, EolEnd;
    var c, n, e := CodeStart(input);
    if n > c {
      var end, next := FirstLine(input, c, n, e);
      RestComplete(input, next);
    } else if e > c {
      BreaksStart(Kinds(input)[c..e]);
      NoLineAt(input, c);
      LinesEnded(input, e);
      EolComplete(input, c, e);
      RestComplete(input, e);
    } else {
      RestComplete(input, c);
      LinesEnded(input, c);
      EolComplete(input, c, c);
    }
  }

  lemma NoLineAt(input: seq<Lexem>, pos: nat)
    requires Lexed(input) && pos < |input| && Kinds(input)[pos] in LAYOUT
    ensures LineEnd(input, pos).None?
  {
    hide CodeLine, LexKind, LineEnd;
    if end :| LineEnd(input, pos) == Some(end) {
      LineSound(input, pos, end);
      CodeLineStarts(Kinds(input)[pos..end]);
    }
  }

  /** The parser accepts exactly the programs of the grammar, whatever the values of the lexemes. */
  lemma AcceptedExact(input: seq<Lexem>)
    requires Lexed(input)
    ensures Accepted(input) <==> Code(Kinds(input))
  {
    hide Accepted, Code;
    if Accepted(input) { CodeSound(input); }
    if Code(Kinds(input)) { CodeComplete(input); }
  }

  // ----- a consequence -----

  /** The seven lexemes of an instruction on three registers. */
  predicate ThreeRegs(input: seq<Lexem>, pos: nat, m: Mnemonic, rd: Reg, rs1: Reg, rs2: Reg) {
    && pos + 7 <= |input| && Kinds(input)[pos..pos + 7] == [KindOf(m)] + Operand(RegReg)
    && input[pos + 2].value == rd.Text() && input[pos + 4].value == rs1.Text() && input[pos + 6].value == rs2.Text()
  }

  /** An immediate instruction with a register for its last operand is taken for a register instruction:
      it is accepted, keeps its mnemonic, and is written like one with immediate 0. */
  lemma RegisterIgnored(input: seq<Lexem>, pos: nat, m: Mnemonic, rd: Reg, rs1: Reg, rs2: Reg, addr: int)
    requires Lexed(input) && m in {ADDI, ANDI, SLLI, SRLI, ORI, XORI, SLTI, SLTIU, SRAI}
    requires rd.Ok() && rs1.Ok() && rs2.Ok() && ThreeRegs(input, pos, m, rd, rs1, rs2)
    ensures FirstAlt(input, pos) == Some(RegReg)
    ensures var line := InsnLine(m, rd.Index(), rs1.Index(), rs2.Index(), 0, "", addr);
      Lines(RegReg, input, pos, addr) == [line] && Encode(line) == Encode(line.(rs2 := 0))
  {
    hide KindOf, Spelled, Reg.Text, Str2Insn, Str2Reg, Encode, LexKind, Applies;
    var ks := Kinds(input)[pos..pos + 7];
    assert ks[0] == input[pos].kind == KindOf(m) && ks[1..] == Operand(RegReg);
    assert Heading(RegReg, KindOf(m));
    AppliesExact(input, pos, RegReg);
    InsnRead(m);
    RegRead(rd);
    RegRead(rs1);
    RegRead(rs2);
    SameWord(InsnLine(m, rd.Index(), rs1.Index(), rs2.Index(), 0, "", addr));
  }

  lemma SameWord(line: Line)
    requires line.InsnLine? && line.insn in {ADDI, ANDI, SLLI, SRLI, ORI, XORI, SLTI, SLTIU, SRAI}
    ensures Encode(line) == Encode(line.(rs2 := 0))
  {
  }
}
