/** The rule file the assembler is given (compilateur/database.txt): its patterns, and what the lexer
    does with them. */
module RuleFile {
  import opened Options
  import opened Regexp
  import opened Patterns
  import opened Notation
  import opened Rewriter
  import opened Matcher
  import opened Lexer

  // ----- the file -----

  const LAYOUT_RULES: seq<(string, string)> := [
    ("blank", "[ \\t]+"), ("newline", "\\n+"), ("comment", ";[^\\n]*"), ("comma", ","),
    ("label", "[a-zA-Z_\\.][a-zA-Z_0-9\\.]*:")
  ]

  const FIRST_INSN_RULES: seq<(string, string)> := [
    ("insn::NOP", "nop"), ("insn::ADDI", "addi"), ("insn::ADD", "add"), ("insn::ANDI", "andi"),
    ("insn::AND", "and"), ("insn::BEQ", "beq"), ("insn::SLLI", "slli"), ("insn::SRLI", "srli"),
    ("insn::SLL", "sll"), ("insn::SRL", "srl"), ("insn::ORI", "ori"), ("insn::OR", "or"), ("insn::BNE", "bne"),
    ("insn::XORI", "xori"), ("insn::XOR", "xor"), ("insn::BGEU", "bgeu"), ("insn::BGE", "bge"),
    ("insn::SLTIU", "sltiu"), ("insn::SLTI", "slti")
  ]

  const MORE_INSN_RULES: seq<(string, string)> := [
    ("insn::SLTU", "sltu"), ("insn::SLT", "slt"), ("insn::SRAI", "srai"), ("insn::SRA", "sra"),
    ("insn::LUI", "lui"), ("insn::AUIPC", "auipc"),
    ("insn::BLTU", "bltu"), ("insn::BLT", "blt"), ("insn::LBU", "lbu"), ("insn::LHU", "lhu"),
    ("insn::LB", "lb"), ("insn::LH", "lh"), ("insn::LW", "lw"), ("insn::SB", "sb"), ("insn::SW", "sw"),
    ("insn::SH", "sh"), ("insn::JALR", "jalr"), ("insn::JAL", "jal"), ("insn::SUB", "sub")
  ]

  const PSEUDO_RULES: seq<(string, string)> := [
    ("unsinsn::J", "j"), ("unsinsn::LI", "li"), ("unsinsn::MV", "mv"), ("unsinsn::BLE", "ble")
  ]

  const OPERAND_RULES: seq<(string, string)> := [
    ("integer::dec", "[\\-+]?[0-9]+"), ("symbole::register", "r[0-9]+"), ("symbole::register", "zero"),
    ("symbole::register", "pc"), ("symbole::register", "s[01p]"), ("symbole::register", "a[0-7]"),
    ("symbole::register", "ra"), ("symbole::label", "[a-zA-Z_\\.][a-zA-Z_0-9\\.]*")
  ]

  const PAREN_RULES: seq<(string, string)> := [
    ("paren::left", "("), ("paren::right", ")")
  ]

  /** Name and pattern text of every rule, in order. */
  const RULES := LAYOUT_RULES + FIRST_INSN_RULES + MORE_INSN_RULES + PSEUDO_RULES + OPERAND_RULES + PAREN_RULES

  const LETTERS: seq<Item> := [Item(Plain('a'), Some('z')), Item(Plain('A'), Some('Z')), Item(Plain('_'), None)]
  const DIGITS: Item := Item(Plain('0'), Some('9'))
  const DOT: Item := Item(Escaped('.'), None)

  function Is(c: char): Piece {
    Piece(false, Single(Plain(c)), NOP)
  }

  function In(items: seq<Item>, op: Operator): Piece {
    Piece(false, Class(false, items), op)
  }

  const BLANK: seq<Piece> := [In([Item(Plain(' '), None), Item(Escaped('t'), None)], OOM)]
  const NEWLINE: seq<Piece> := [Piece(false, Single(Escaped('n')), OOM)]
  const COMMENT: seq<Piece> := [Is(';'), Piece(false, Class(true, [Item(Escaped('n'), None)]), ZOM)]
  const NAME: seq<Piece> := [In(LETTERS + [DOT], NOP), In(LETTERS + [DIGITS, DOT], ZOM)]
  const LABEL: seq<Piece> := NAME + [Is(':')]
  const INTEGER: seq<Piece> := [In([Item(Escaped('-'), None), Item(Plain('+'), None)], ZOO), In([DIGITS], OOM)]
  const REGISTER: seq<Piece> := [Is('r'), In([DIGITS], OOM)]
  const SAVED: seq<Piece> := [Is('s'),
    In([Item(Plain('0'), None), Item(Plain('1'), None), Item(Plain('p'), None)], NOP)]
  const ARGUMENT: seq<Piece> := [Is('a'), In([Item(Plain('0'), Some('7'))], NOP)]

  /** The pieces of a text without operators and classes. */
  function Word(w: string): seq<Piece> {
    if w == "" then [] else [Is(w[0])] + Word(w[1..])
  }

  /** The pieces of a rule's text. */
  function PiecesOf(text: string): seq<Piece> {
    if text == "[ \\t]+" then BLANK
    else if text == "\\n+" then NEWLINE
    else if text == ";[^\\n]*" then COMMENT
    else if text == "[a-zA-Z_\\.][a-zA-Z_0-9\\.]*:" then LABEL
    else if text == "[a-zA-Z_\\.][a-zA-Z_0-9\\.]*" then NAME
    else if text == "[\\-+]?[0-9]+" then INTEGER
    else if text == "r[0-9]+" then REGISTER
    else if text == "s[01p]" then SAVED
    else if text == "a[0-7]" then ARGUMENT
    else Word(text)
  }

  // ----- the texts in the file -----

  lemma Items2(a: Item, b: Item)
    ensures ItemsText([a]) == ItemText(a) && ItemsText([a, b]) == ItemText(a) + ItemText(b)
  {
    assert [a, b][1..] == [b] && [b][1..] == [];
  }

  lemma ItemsConcat(a: seq<Item>, b: seq<Item>)
    ensures ItemsText(a + b) == ItemsText(a) + ItemsText(b)
    decreases |a|
  {
    if a == [] {
      assert a + b == b;
    } else {
      assert (a + b)[1..] == a[1..] + b;
      ItemsConcat(a[1..], b);
    }
  }

  function PieceText(p: Piece): string {
    Not(p.excluded) + AtomText(p.atom) + OpText(p.op)
  }

  lemma Pieces(p: Piece, q: Piece)
    ensures Text([p]) == PieceText(p) && Text([p, q]) == PieceText(p) + PieceText(q)
  {
    hide Not, AtomText, OpText;
    assert [p, q][1..] == [q] && [q][1..] == [];
    assert Text([q]) == PieceText(q) + "";
    assert Text([p, q]) == PieceText(p) + Text([q]);
  }

  lemma BlankText()
    ensures Text(BLANK) == "[ \\t]+"
  {
    hide ItemsText;
    Items2(BLANK[0].atom.items[0], BLANK[0].atom.items[1]);
    assert PieceText(BLANK[0]) == "[ \\t]+";
    Pieces(BLANK[0], BLANK[0]);
  }

  lemma NewlineText()
    ensures Text(NEWLINE) == "\\n+"
  {
    Pieces(NEWLINE[0], NEWLINE[0]);
  }

  lemma CommentText()
    ensures Text(COMMENT) == ";[^\\n]*"
  {
    hide ItemsText;
    Items2(COMMENT[1].atom.items[0], COMMENT[1].atom.items[0]);
    assert PieceText(COMMENT[1]) == "[^\\n]*";
    Pieces(COMMENT[0], COMMENT[1]);
  }

  lemma RegisterText()
    ensures Text(REGISTER) == "r[0-9]+"
  {
    hide ItemsText;
    Items2(DIGITS, DIGITS);
    assert PieceText(REGISTER[1]) == "[0-9]+";
    Pieces(REGISTER[0], REGISTER[1]);
  }

  lemma IntegerText()
    ensures Text(INTEGER) == "[\\-+]?[0-9]+"
  {
    hide ItemsText;
    Items2(DIGITS, DIGITS);
    Items2(INTEGER[0].atom.items[0], INTEGER[0].atom.items[1]);
    assert PieceText(INTEGER[0]) == "[\\-+]?" && PieceText(INTEGER[1]) == "[0-9]+";
    Pieces(INTEGER[0], INTEGER[1]);
  }

  lemma LettersText()
    ensures ItemsText(LETTERS) == "a-zA-Z_"
    ensures ItemsText(LETTERS + [DOT]) == "a-zA-Z_\\."
    ensures ItemsText(LETTERS + [DIGITS, DOT]) == "a-zA-Z_0-9\\."
  {
    hide ItemsText;
    Items2(LETTERS[0], LETTERS[1]);
    Items2(LETTERS[2], DOT);
    Items2(DIGITS, DOT);
    Items2(DOT, DOT);
    ItemsConcat([LETTERS[0], LETTERS[1]], [LETTERS[2]]);
    assert LETTERS == [LETTERS[0], LETTERS[1]] + [LETTERS[2]];
    ItemsConcat(LETTERS, [DOT]);
    ItemsConcat(LETTERS, [DIGITS, DOT]);
  }

  lemma FirstLetterText()
    ensures PieceText(NAME[0]) == "[a-zA-Z_\\.]"
  {
    hide ItemsText;
    LettersText();
  }

  lemma MoreLettersText()
    ensures PieceText(NAME[1]) == "[a-zA-Z_0-9\\.]*"
  {
    hide ItemsText;
    LettersText();
  }

  lemma NameText()
    ensures Text(NAME) == "[a-zA-Z_\\.][a-zA-Z_0-9\\.]*"
  {
    hide Text, PieceText;
    FirstLetterText();
    MoreLettersText();
    Pieces(NAME[0], NAME[1]);
    assert NAME == [NAME[0], NAME[1]];
  }

  lemma TextConcat(a: seq<Piece>, b: seq<Piece>)
    ensures Text(a + b) == Text(a) + Text(b)
    decreases |a|
  {
    hide Not, AtomText, OpText;
    if a == [] {
      assert a + b == b;
    } else {
      assert (a + b)[1..] == a[1..] + b;
      TextConcat(a[1..], b);
    }
  }

  lemma LabelText()
    ensures Text(LABEL) == "[a-zA-Z_\\.][a-zA-Z_0-9\\.]*:"
  {
    hide Text;
    NameText();
    TextConcat(NAME, [Is(':')]);
    assert PieceText(Is(':')) == ":";
    Pieces(Is(':'), Is(':'));
  }

  lemma SavedText()
    ensures Text(SAVED) == "s[01p]"
  {
    hide ItemsText;
    var items := SAVED[1].atom.items;
    Items2(items[0], items[1]);
    Items2(items[2], items[2]);
    ItemsConcat([items[0], items[1]], [items[2]]);
    assert items == [items[0], items[1]] + [items[2]];
    assert PieceText(SAVED[1]) == "[01p]";
    Pieces(SAVED[0], SAVED[1]);
  }

  lemma ArgumentText()
    ensures Text(ARGUMENT) == "a[0-7]"
  {
    hide ItemsText;
    Items2(ARGUMENT[1].atom.items[0], ARGUMENT[1].atom.items[0]);
    assert PieceText(ARGUMENT[1]) == "[0-7]";
    Pieces(ARGUMENT[0], ARGUMENT[1]);
  }

  lemma {:induction false} WordText(w: string)
    ensures Text(Word(w)) == w
  {
    if w != "" {
      WordText(w[1..]);
      assert PieceText(Is(w[0])) == [w[0]];
      assert [w[0]] + w[1..] == w;
    }
  }

  /** Every text is that of its pieces. */
  lemma TextOf(text: string)
    ensures Text(PiecesOf(text)) == text
  {
    hide Text, Word;
    BlankText();
    NewlineText();
    CommentText();
    LabelText();
    NameText();
    IntegerText();
    RegisterText();
    SavedText();
    ArgumentText();
    WordText(text);
  }

  // ----- which patterns there are -----

  predicate Readable(ps: seq<Piece>) {
    ps != [] && forall k :: 0 <= k < |ps| ==> AtomOk(ps[k].atom)
  }

  /** A rule without operators. */
  predicate IsWord(ps: seq<Piece>) {
    Readable(ps) && forall k :: 0 <= k < |ps| ==> ps[k].op == NOP
  }

  predicate Lower(w: string) {
    w != "" && forall k :: 0 <= k < |w| ==> 'a' <= w[k] <= 'z' || w[k] in {',', '(', ')'}
  }

  predicate AllLower(rules: seq<(string, string)>) {
    forall k :: 0 <= k < |rules| ==> Lower(rules[k].1)
  }

  lemma FirstLower()
    ensures AllLower(FIRST_INSN_RULES)
  {
  }

  lemma MoreLower()
    ensures AllLower(MORE_INSN_RULES)
  {
  }

  lemma PseudoLower()
    ensures AllLower(PSEUDO_RULES) && AllLower(PAREN_RULES)
  {
  }

  lemma {:induction false} WordPieces(w: string)
    requires Lower(w) || w == ""
    ensures |Word(w)| == |w| && forall k :: 0 <= k < |w| ==> Word(w)[k] == Is(w[k])
  {
    if w != "" {
      WordPieces(w[1..]);
    }
  }

  lemma LowerIsWord(w: string)
    requires Lower(w)
    ensures IsWord(Word(w))
  {
    WordPieces(w);
  }

  predicate Operated(ps: seq<Piece>) {
    ps in [BLANK, NEWLINE, COMMENT, NAME, LABEL, INTEGER, REGISTER]
  }

  predicate Known(ps: seq<Piece>) {
    Operated(ps) || IsWord(ps)
  }

  lemma LowerPieces(text: string)
    requires Lower(text)
    ensures PiecesOf(text) == Word(text)
  {
  }

  /** The texts with operators or classes. */
  const OPERATED: seq<string> := [
    "[ \\t]+", "\\n+", ";[^\\n]*", "[a-zA-Z_\\.][a-zA-Z_0-9\\.]*:", "[a-zA-Z_\\.][a-zA-Z_0-9\\.]*",
    "[\\-+]?[0-9]+", "r[0-9]+", "s[01p]", "a[0-7]"
  ]

  predicate KnownTexts(rules: seq<(string, string)>) {
    forall k :: 0 <= k < |rules| ==> Lower(rules[k].1) || rules[k].1 in OPERATED
  }

  lemma LayoutTexts()
    ensures KnownTexts(LAYOUT_RULES)
  {
    assert Lower(",");
  }

  lemma OperandTexts()
    ensures KnownTexts(OPERAND_RULES)
  {
    assert Lower("zero") && Lower("pc") && Lower("ra");
  }

  lemma TextsConcat(a: seq<(string, string)>, b: seq<(string, string)>)
    requires KnownTexts(a) && KnownTexts(b)
    ensures KnownTexts(a + b)
  {
    hide Lower;
    assert forall k :: 0 <= k < |b| ==> (a + b)[|a| + k] == b[k];
  }

  /** Every rule of the file is a word or one of the nine other texts. */
  lemma RuleTexts(k: nat)
    requires k < |RULES|
    ensures Lower(RULES[k].1) || RULES[k].1 in OPERATED
  {
    hide Lower;
    LayoutTexts();
    FirstLower();
    MoreLower();
    PseudoLower();
    OperandTexts();
    TextsConcat(LAYOUT_RULES, FIRST_INSN_RULES);
    TextsConcat(LAYOUT_RULES + FIRST_INSN_RULES, MORE_INSN_RULES);
    TextsConcat(LAYOUT_RULES + FIRST_INSN_RULES + MORE_INSN_RULES, PSEUDO_RULES);
    TextsConcat(LAYOUT_RULES + FIRST_INSN_RULES + MORE_INSN_RULES + PSEUDO_RULES, OPERAND_RULES);
    TextsConcat(LAYOUT_RULES + FIRST_INSN_RULES + MORE_INSN_RULES + PSEUDO_RULES + OPERAND_RULES, PAREN_RULES);
  }

  lemma ClassesAreWords()
    ensures IsWord(SAVED) && IsWord(ARGUMENT)
  {
  }

  lemma RuleKinds(k: nat)
    requires k < |RULES|
    ensures Known(PiecesOf(RULES[k].1))
  {
    hide IsWord, Word, Lower;
    RuleTexts(k);
    if Lower(RULES[k].1) {
      LowerPieces(RULES[k].1);
      LowerIsWord(RULES[k].1);
    } else {
      ClassesAreWords();
    }
  }

  // ----- their groups -----

  lemma GroupsOfFew(ps: seq<Piece>)
    requires 1 <= |ps| <= 3
    ensures |ps| == 1 ==> Groups(ps) == [GroupOf(ps[0])]
    ensures |ps| == 2 ==> Groups(ps) == [GroupOf(ps[0]), GroupOf(ps[1])]
    ensures |ps| == 3 ==> Groups(ps) == [GroupOf(ps[0]), GroupOf(ps[1]), GroupOf(ps[2])]
  {
    hide GroupOf;
    assert |ps| == 1 ==> ps[1..] == [];
    assert |ps| == 2 ==> ps[1..] == [ps[1]] && ps[1..][1..] == [];
    assert |ps| == 3 ==> ps[1..] == [ps[1], ps[2]] && ps[1..][1..] == [ps[2]] && ps[1..][1..][1..] == [];
    assert |ps| >= 2 ==> Groups(ps) == [GroupOf(ps[0])] + ([GroupOf(ps[1])] + Groups(ps[1..][1..]));
    assert |ps| == 3 ==> Groups(ps[1..][1..]) == [GroupOf(ps[2])] + Groups(ps[1..][1..][1..]);
  }

  lemma KnownReadable(ps: seq<Piece>)
    requires Known(ps)
    ensures Readable(ps)
  {
  }

  lemma {:induction false} WordGroups(ps: seq<Piece>)
    requires forall k :: 0 <= k < |ps| ==> ps[k].op == NOP
    ensures |Groups(ps)| == |ps| == Mandatory(Groups(ps)) && forall k :: 0 <= k < |ps| ==> Groups(ps)[k].op == NOP
    ensures Deterministic(Groups(ps))
  {
    hide GroupOf;
    if ps != [] {
      GroupOp(ps[0]);
      WordGroups(ps[1..]);
    }
  }

  /** Signs are no digits. */
  lemma IntegerApart()
    ensures forall c :: GroupOf(INTEGER[0]).In(c) ==> !GroupOf(INTEGER[1]).In(c)
    ensures forall c :: GroupOf(INTEGER[0]).In(c) <==> c in {'-', '+'}
  {
    var items := INTEGER[0].atom.items;
    assert ItemHas(items[0], '-') && ItemHas(items[1], '+');
  }

  /** A colon is not in a name. */
  lemma ColonApart()
    ensures forall c :: GroupOf(LABEL[1]).In(c) ==> !GroupOf(LABEL[2]).In(c)
    ensures GroupOf(LABEL[1]).members != GroupOf(LABEL[2]).members
  {
    var items := LABEL[1].atom.items;
    assert forall k :: 0 <= k < |items| ==> !ItemHas(items[k], ':');
    assert GroupOf(LABEL[2]).In(':');
  }

  /** One group, or two of which the first is plain or optional and apart from the second. */
  lemma FewGroups(gs: seq<Group>)
    requires |gs| == 1 || (|gs| == 2 && gs[0].op in {NOP, ZOO})
    requires |gs| == 2 && gs[0].op == ZOO ==> (forall c :: gs[0].In(c) ==> !gs[1].In(c)) && !gs[1].op.Allows(0)
    ensures Deterministic(gs) && OptiAll(gs) == gs
    ensures |gs| == 1 && gs[0].op in {NOP, OOM} ==> Mandatory(gs) > 0
    ensures |gs| == 2 && (gs[0].op == NOP || gs[1].op in {NOP, OOM}) ==> Mandatory(gs) > 0
  {
    if |gs| == 1 {
      assert gs[1..] == [];
      assert Apart(gs[0], []);
    } else {
      assert gs[1..] == [gs[1]] && gs[1..][1..] == [];
      assert Apart(gs[1], []);
      assert Apart(gs[0], gs[1..]) || gs[0].op == NOP;
      assert [gs[0]] + gs[1..] == gs;
      Unchanged(gs[0], gs[1..]);
    }
  }

  lemma Cons(g: Group, gs: seq<Group>)
    requires Deterministic(gs) && (g.op != NOP ==> Apart(g, gs))
    ensures Deterministic([g] + gs) && (g.op == NOP ==> Mandatory([g] + gs) > 0)
  {
    assert ([g] + gs)[1..] == gs;
  }

  lemma LabelGroups()
    ensures var gs := Groups(LABEL); Deterministic(gs) && OptiAll(gs) == gs && Mandatory(gs) > 0
  {
    hide GroupOf, Opti, Deterministic, Mandatory;
    var a, b, c := GroupOf(LABEL[0]), GroupOf(LABEL[1]), GroupOf(LABEL[2]);
    ColonApart();
    GroupsOfFew(LABEL);
    GroupOp(LABEL[0]);
    GroupOp(LABEL[1]);
    GroupOp(LABEL[2]);
    assert Apart(b, [c]) by { assert [c][1..] == []; }
    FewGroups([c]);
    Cons(b, [c]);
    Cons(a, [b, c]);
    assert [b] + [c] == [b, c] && [a] + [b, c] == [a, b, c] && [a, b, c][1..] == [b, c];
    Unchanged(a, [b, c]);
  }

  /** The pass leaves the rules of the file as they are: they are deterministic already. */
  lemma KnownGroups(ps: seq<Piece>)
    requires Known(ps)
    ensures var gs := Groups(ps); gs != [] && Deterministic(gs) && OptiAll(gs) == gs && Mandatory(gs) > 0
  {
    hide GroupOf, Deterministic, Mandatory, OptiAll, IsWord;
    if Operated(ps) {
      GroupsOfFew(ps);
      GroupOp(ps[0]);
      if ps == LABEL {
        LabelGroups();
      } else {
        if |ps| == 2 {
          GroupOp(ps[1]);
          IntegerApart();
        }
        FewGroups(Groups(ps));
      }
    } else {
      WordKept(ps);
    }
  }

  lemma WordKept(ps: seq<Piece>)
    requires IsWord(ps)
    ensures var gs := Groups(ps); gs != [] && Deterministic(gs) && OptiAll(gs) == gs && Mandatory(gs) > 0
  {
    hide GroupOf;
    WordGroups(ps);
    var gs := Groups(ps);
    assert [gs[0]] + gs[1..] == gs;
    Unchanged(gs[0], gs[1..]);
  }

  // ----- the end of the input -----

  /** The two rules that are reported to match the whole input without being words of it. */
  predicate EndsShort(ps: seq<Piece>, s: string) {
    (ps == REGISTER && s == "r") || (ps == INTEGER && s in {"+", "-"})
  }

  /** With a plain or a `+` group at the end, the last group takes the last character of every word. */
  lemma LastTakes(gs: seq<Group>, s: string)
    requires gs != [] && s != "" && gs[|gs| - 1].op in {NOP, OOM}
    ensures LastConsumes(gs, s) <==> Lang(gs, s)
  {
    var last := |gs| - 1;
    assert gs[last].(op := gs[last].op) == gs[last];
    assert Cut(gs, last, gs[last].op) == gs;
  }

  /** A plain group and a `*`. */
  lemma StarTakes(gs: seq<Group>, s: string)
    requires |gs| == 2 && gs[0].op == NOP && gs[1].op == ZOM && s != ""
    ensures TakesAll(gs, s) <==> Lang(gs, s)
  {
    hide Lang;
    var plus, once := Cut(gs, 1, OOM), Cut(gs, 0, NOP);
    assert plus == [gs[0], gs[1].(op := OOM)] && once == [gs[0]];
    assert gs[1..] == [gs[1]] && plus[1..] == [gs[1].(op := OOM)] && once[1..] == [];
    LangOnce(gs, s);
    LangOnce(plus, s);
    LangOnce(once, s);
    StarWord(gs[1], s[1..]);
    assert Cut([gs[1]], 0, OOM) == [gs[1].(op := OOM)];
    EmptyWord(plus[1..]);
    assert !plus[1..][0].op.Allows(0);
    EmptyWord([]);
    if Lang([], s[1..]) { OnlyEmpty(s[1..]); }
  }

  /** At the end of the input a rule takes all exactly when that is one of its words, two short ends
      apart. */
  lemma EndExact(ps: seq<Piece>, s: string)
    requires Known(ps) && s != ""
    ensures Groups(ps) != [] && (TakesAll(Groups(ps), s) <==> Lang(Groups(ps), s) || EndsShort(ps, s))
  {
    hide Lang, LastConsumes, IsWord, GroupOf;
    KnownGroups(ps);
    var gs := Groups(ps);
    if IsWord(ps) {
      WordEnd(ps, s);
    } else {
      GroupsOfFew(ps);
      GroupOp(ps[|ps| - 1]);
      GroupOp(ps[0]);
      if gs[|gs| - 1].op == ZOM {
        StarTakes(gs, s);
      } else {
        LastTakes(gs, s);
        if |ps| == 2 {
          ShortEnd(ps, s);
        }
      }
    }
  }

  lemma WordEnd(ps: seq<Piece>, s: string)
    requires IsWord(ps) && s != ""
    ensures Groups(ps) != [] && (TakesAll(Groups(ps), s) <==> Lang(Groups(ps), s)) && !EndsShort(ps, s)
  {
    hide Lang, LastConsumes, GroupOf;
    WordGroups(ps);
    LastTakes(Groups(ps), s);
  }

  lemma ShortEnd(ps: seq<Piece>, s: string)
    requires ps in [INTEGER, REGISTER] && s != ""
    ensures Groups(ps) == [GroupOf(ps[0]), GroupOf(ps[1])]
    ensures ArrivesAtEnd(Groups(ps), s) <==> EndsShort(ps, s)
  {
    hide Lang, Cut, GroupOf;
    GroupsOfFew(ps);
    GroupOp(ps[0]);
    OneCharacter(Groups(ps), s);
    IntegerApart();
    OneOf('r');
    assert s[1..] == "" ==> s == [s[0]];
  }

  lemma OneOf(c: char)
    requires c as int < 128
    ensures forall d :: GroupOf(Is(c)).In(d) <==> d == c
  {
  }

  // ----- what the rules find -----

  /** The compiled rule number k. */
  function RuleAt(k: nat): Lexer.Rule
    requires k < |RULES|
  {
    var gs := Compile(RULES[k].1);
    Lexer.Rule(RULES[k].0, if gs.Some? then gs.value else [])
  }

  function Shipped(): (rules: seq<Lexer.Rule>)
    ensures |rules| == |RULES|
  {
    seq(|RULES|, k requires 0 <= k < |RULES| => RuleAt(k))
  }

  /** Every text of the file compiles to the groups of its pieces. */
  lemma RuleGroups(k: nat)
    requires k < |RULES|
    ensures Known(PiecesOf(RULES[k].1)) && Compile(RULES[k].1) == Some(Groups(PiecesOf(RULES[k].1)))
    ensures RuleAt(k).groups == Groups(PiecesOf(RULES[k].1))
  {
    hide Text, Groups, PiecesOf, Parse, Known, Rewriter.OptiAll, AtomOk;
    var ps := PiecesOf(RULES[k].1);
    RuleKinds(k);
    TextOf(RULES[k].1);
    KnownReadable(ps);
    TextParse(ps, false);
    KnownGroups(ps);
  }

  lemma KnownExact(ps: seq<Piece>, s: string, n: nat)
    requires Known(ps) && s != "" && n <= |s|
    ensures var gs := Groups(ps);
      Reported(Greedy(gs, s)) == Some(s[n..]) <==>
      if n < |s| then Longest(gs, s, n) else Lang(gs, s) || EndsShort(ps, s)
  {
    hide *;
    KnownGroups(ps);
    EndExact(ps, s);
    ReportedExact(Groups(ps), s, n);
  }

  /** Every rule of the file, at every non-empty rest of a content: a proper prefix is taken exactly
      when it is the longest word of the pattern, and all of it exactly when it is a word, or a lone
      `r`, `+` or `-`. */
  lemma ShippedExact(k: nat, s: string, n: nat)
    requires k < |RULES| && s != "" && n <= |s|
    ensures var ps := PiecesOf(RULES[k].1);
      Matches(RuleAt(k), s) == Some(s[n..]) <==>
      if n < |s| then Longest(Groups(ps), s, n) else Lang(Groups(ps), s) || EndsShort(ps, s)
  {
    hide *;
    RuleGroups(k);
    KnownExact(PiecesOf(RULES[k].1), s, n);
    MatchesOf(RuleAt(k), s);
  }

  lemma MatchesOf(rule: Lexer.Rule, s: string)
    ensures Matches(rule, s) == Reported(Greedy(rule.groups, s))
  {
  }

  /** So lexing with the file's rules ends on every content. */
  lemma ShippedProductive()
    ensures Productive(Shipped())
  {
    hide Groups, PiecesOf, Known, Mandatory, Deterministic, OptiAll, RuleAt;
    forall k | 0 <= k < |RULES| ensures Mandatory(Shipped()[k].groups) > 0 {
      RuleGroups(k);
      KnownGroups(PiecesOf(RULES[k].1));
    }
  }
}
