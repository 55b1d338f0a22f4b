/** From the text of a program: what is printed from statements is lexed into their lexemes, whatever
    they are, and so becomes the lines they denote. */
module Printing {
  import opened Options
  import opened AsmLine
  import opened Spelling
  import opened Reading
  import Grammar
  import S = Statements
  import Syntax
  import RuleOrder
  import Lexer
  import Names
  import RuleFile

  /** The text of a list of lexemes. */
  function Print(tokens: seq<S.Token>): string {
    if tokens == [] then "" else tokens[0].value + Print(tokens[1..])
  }

  // ----- words and separators -----

  predicate Separates(t: S.Token) {
    t in {S.SPACE, S.COMMA, S.OPEN, S.CLOSE, S.NEWLINE}
  }

  /** Read as itself wherever a separator follows. */
  ghost predicate IsWord(t: S.Token) {
    && t.value != "" && t.value[0] !in {' ', '\t', '\n'}
    && forall rest :: rest != "" && Stops(rest) ==> Reads(t.value + rest, t.kind, t.value)
  }

  lemma InsnIsWord(m: Mnemonic)
    requires m != UNKNOWN
    ensures IsWord(S.Insn(m))
  {
    hide Reads, Spelled, Grammar.Str2Insn;
    CapitalName(m);
    forall rest | rest != "" && Stops(rest) ensures Reads(Spelled(m) + rest, KindOf(m), Spelled(m)) {
      MnemonicReads(m, rest);
    }
  }

  lemma PseudoIsWord(t: S.Token)
    requires t in {S.Token("unsinsn::J", "j"), S.Token("unsinsn::LI", "li"), S.Token("unsinsn::MV", "mv")}
    ensures IsWord(t)
  {
    hide Reads, RuleFile.RULES;
    PseudoTexts();
    forall rest | rest != "" && Stops(rest) ensures Reads(t.value + rest, t.kind, t.value) {
      PseudoReads(43, rest);
      PseudoReads(44, rest);
      PseudoReads(45, rest);
    }
  }

  lemma RegIsWord(r: Reg)
    requires r.Ok()
    ensures IsWord(S.Reg(r))
  {
    hide Reads, Reg.Text, Reg.Ok, OperandFront;
    RegisterStart(r);
    forall rest | rest != "" && Stops(rest) ensures Reads(r.Text() + rest, "symbole::register", r.Text()) {
      RegisterReads(r, rest);
    }
  }

  lemma NumIsWord(n: int)
    ensures IsWord(S.Num(n))
  {
    hide Reads, Decimal;
    forall rest | rest != "" && Stops(rest) ensures Reads(Number(n) + rest, "integer::dec", Number(n)) {
      NumberReads(n, rest);
    }
  }

  lemma RefIsWord(name: string)
    requires Referable(name)
    ensures IsWord(S.Ref(name))
  {
    hide Reads, Spelled;
    forall rest | rest != "" && Stops(rest) ensures Reads(name + rest, "symbole::label", name) {
      ReferenceReads(name, rest);
    }
  }

  lemma LabelIsWord(name: string)
    requires IsName(name)
    ensures IsWord(S.Token("label", name + ":"))
  {
    hide Reads;
    forall rest | rest != "" && Stops(rest) ensures Reads(name + ":" + rest, "label", name + ":") {
      LabelReads(name, rest);
    }
  }

  // ----- lists of lexemes -----

  /** Behind each word comes a separator, behind a blank or a newline a word or the end. */
  ghost predicate Spaced(tokens: seq<S.Token>) {
    tokens == [] || (
      && Spaced(tokens[1..])
      && (IsWord(tokens[0]) || Separates(tokens[0]))
      && (!Separates(tokens[0]) ==> |tokens| > 1 && Separates(tokens[1]))
      && (tokens[0] in {S.SPACE, S.NEWLINE} && |tokens| > 1 ==> IsWord(tokens[1])))
  }

  /** Each lexeme is read as itself at its place in the text. */
  ghost predicate AllRead(tokens: seq<S.Token>) {
    tokens == [] || (Reads(Print(tokens), tokens[0].kind, tokens[0].value) && AllRead(tokens[1..]))
  }

  lemma PrintStarts(tokens: seq<S.Token>)
    requires tokens != [] && tokens[0].value != ""
    ensures Print(tokens) != "" && Print(tokens)[0] == tokens[0].value[0]
  {
  }

  lemma {:induction false} SpacedRead(tokens: seq<S.Token>)
    requires Spaced(tokens)
    ensures AllRead(tokens)
    decreases |tokens|
  {
    hide Reads, Print, IsWord, Separates;
    if tokens != [] {
      SpacedRead(tokens[1..]);
      FirstRead(tokens);
    }
  }

  lemma FirstRead(tokens: seq<S.Token>)
    requires tokens != [] && Spaced(tokens)
    ensures Reads(Print(tokens), tokens[0].kind, tokens[0].value)
  {
    hide Reads;
    var t, rest := tokens[0], Print(tokens[1..]);
    if |tokens| > 1 {
      PrintStarts(tokens[1..]);
    }
    SeparatorReads(rest);
    if t == S.SPACE {
      BlankReads(rest);
    } else if t == S.NEWLINE {
      NewlineReads(rest);
    } else if !Separates(t) {
      assert Stops(rest);
    }
  }

  // ----- statements -----

  function Target(s: S.Stmt): Option<string> {
    match s
    case If(_, _, _, target) => Some(target)
    case Call(_, target) => Some(target)
    case CallReg(_, _, target) => Some(target)
    case Goto(target) => Some(target)
    case _ => None
  }

  /** A statement whose target the lexer sees as one name, or a label. */
  ghost predicate ItemOk(i: S.Item) {
    if i.Label? then IsName(i.name)
    else S.WellFormed(i.stmt) && (Target(i.stmt).Some? ==> Referable(Target(i.stmt).value))
  }

  ghost predicate Printable(items: seq<S.Item>) {
    forall k :: 0 <= k < |items| ==> ItemOk(items[k])
  }

  /** Separators and words take turns, and only the first separator is a blank. */
  ghost predicate TakeTurns(tokens: seq<S.Token>) {
    forall k :: 0 <= k < |tokens| ==>
      if k % 2 == 1 then IsWord(tokens[k])
      else Separates(tokens[k]) && tokens[k] != S.NEWLINE && (tokens[k] == S.SPACE ==> k == 0)
  }

  lemma OperandsTakeTurns(s: S.Stmt)
    requires ItemOk(S.Code(s))
    ensures TakeTurns(S.Operands(s)) && |S.Operands(s)| > 1
  {
    hide IsWord, Reg.Ok, Reg.Text, Number, Referable, S.Num;
    match s
    case OpReg(_, rd, rs1, rs2) => RegIsWord(rd); RegIsWord(rs1); RegIsWord(rs2);
    case OpImm(_, rd, rs1, imm) => RegIsWord(rd); RegIsWord(rs1); NumIsWord(imm);
    case If(_, rs1, rs2, target) => RegIsWord(rs1); RegIsWord(rs2); RefIsWord(target);
    case Fetch(_, rd, offset, base) => RegIsWord(rd); NumIsWord(offset); RegIsWord(base);
    case Put(_, src, offset, base) => RegIsWord(src); NumIsWord(offset); RegIsWord(base);
    case Call(rd, target) => RegIsWord(rd); RefIsWord(target);
    case CallReg(rd, base, target) => RegIsWord(rd); RegIsWord(base); RefIsWord(target);
    case OpUpper(_, rd, imm) => RegIsWord(rd); NumIsWord(imm);
    case Goto(target) => RefIsWord(target);
    case Set(rd, imm) => RegIsWord(rd); NumIsWord(imm);
    case Copy(rd, rs) => RegIsWord(rd); RegIsWord(rs);
  }

  lemma HeadIsWord(s: S.Stmt)
    requires S.WellFormed(s)
    ensures IsWord(S.Head(s))
  {
    hide IsWord, Spelled, KindOf, S.Insn;
    S.OpensIn(s);
    if S.Opens(s).Insn? {
      InsnIsWord(S.Opens(s).m);
    } else {
      PseudoIsWord(S.Head(s));
    }
  }

  /** The rest of a line, from operand k on, with more lines behind it. */
  lemma {:induction false} LineSpaced(ops: seq<S.Token>, k: nat, more: seq<S.Token>)
    requires TakeTurns(ops) && k <= |ops| != 1 && Spaced(more) && (more != [] ==> IsWord(more[0]))
    ensures Spaced(ops[k..] + ([S.NEWLINE] + more))
    decreases |ops| - k
  {
    hide IsWord;
    var rest := ops[k..] + ([S.NEWLINE] + more);
    if k == |ops| {
      assert rest == [S.NEWLINE] + more && rest[1..] == more;
    } else {
      assert rest[1..] == ops[k + 1..] + ([S.NEWLINE] + more) && rest[0] == ops[k];
      assert rest[1] == if k + 1 < |ops| then ops[k + 1] else S.NEWLINE;
      LineSpaced(ops, k + 1, more);
      if k % 2 == 1 { WordStarts(ops[k]); }
    }
  }

  lemma ItemSpaced(i: S.Item, more: seq<S.Token>)
    requires ItemOk(i) && Spaced(more) && (more != [] ==> IsWord(more[0]))
    ensures Spaced(S.ItemTokens(i) + more) && IsWord(S.ItemTokens(i)[0])
  {
    hide IsWord, Spaced, TakeTurns, S.Head, S.Operands, Separates, IsName, S.WellFormed;
    if i.Label? {
      LabelIsWord(i.name);
      NoTurns();
      HeadSpaced(S.Token("label", i.name + ":"), [], more);
      assert S.ItemTokens(i) == [S.Token("label", i.name + ":")] + [] + [S.NEWLINE];
    } else {
      OperandsTakeTurns(i.stmt);
      HeadIsWord(i.stmt);
      HeadSpaced(S.Head(i.stmt), S.Operands(i.stmt), more);
      assert S.ItemTokens(i) == [S.Head(i.stmt)] + S.Operands(i.stmt) + [S.NEWLINE];
    }
  }

  lemma NoTurns()
    ensures TakeTurns([])
  {
  }

  lemma HeadSpaced(head: S.Token, ops: seq<S.Token>, more: seq<S.Token>)
    requires IsWord(head) && TakeTurns(ops) && |ops| != 1 && Spaced(more) && (more != [] ==> IsWord(more[0]))
    ensures Spaced([head] + ops + [S.NEWLINE] + more)
  {
    hide IsWord, Spaced, TakeTurns, Separates;
    var rest := ops + ([S.NEWLINE] + more);
    LineSpaced(ops, 0, more);
    assert ops[0..] == ops;
    RestSeparates(ops, more);
    WordSpaced(head, rest);
    Regroup([head], ops, [S.NEWLINE], more);
  }

  lemma RestSeparates(ops: seq<S.Token>, more: seq<S.Token>)
    requires TakeTurns(ops)
    ensures Separates((ops + ([S.NEWLINE] + more))[0])
  {
    hide IsWord;
    assert (ops + ([S.NEWLINE] + more))[0] == if ops == [] then S.NEWLINE else ops[0];
  }

  lemma Regroup(a: seq<S.Token>, b: seq<S.Token>, c: seq<S.Token>, d: seq<S.Token>)
    ensures a + b + c + d == a + (b + (c + d))
  {
  }

  lemma WordSpaced(head: S.Token, rest: seq<S.Token>)
    requires IsWord(head) && Spaced(rest) && rest != [] && Separates(rest[0])
    ensures Spaced([head] + rest)
  {
    hide IsWord;
    assert ([head] + rest)[1..] == rest;
    WordStarts(head);
  }

  lemma WordStarts(t: S.Token)
    requires IsWord(t)
    ensures t.value != "" && t != S.SPACE && t != S.NEWLINE
  {
    assert S.SPACE.value[0] == ' ' && S.NEWLINE.value[0] == '\n';
  }

  lemma {:induction false} ItemsSpaced(items: seq<S.Item>)
    requires Printable(items)
    ensures Spaced(S.Tokens(items)) && (S.Tokens(items) != [] ==> IsWord(S.Tokens(items)[0]))
    decreases |items|
  {
    hide IsWord, S.ItemTokens, ItemOk;
    if items != [] {
      assert ItemOk(items[0]);
      ItemsSpaced(items[1..]);
      ItemSpaced(items[0], S.Tokens(items[1..]));
      SomeTokens(items[0]);
    }
  }

  lemma SomeTokens(i: S.Item)
    ensures S.ItemTokens(i) != []
  {
  }

  // ----- what the lexer makes of it -----

  lemma {:induction false} AllReadFrom(tokens: seq<S.Token>, n: nat)
    requires AllRead(tokens) && n < |tokens|
    ensures Reads(Print(tokens[n..]), tokens[n].kind, tokens[n].value)
    decreases n
  {
    hide Reads, Print;
    if n == 0 {
      assert tokens[0..] == tokens;
    } else {
      assert tokens[1..][n - 1..] == tokens[n..];
      AllReadFrom(tokens[1..], n - 1);
    }
  }

  /** However far the lexer has come, its lexemes are the first printed ones. */
  lemma {:induction false} CoversPrinted(tokens: seq<S.Token>, lexems: seq<Grammar.Lexem>, upto: nat)
    requires AllRead(tokens) && upto <= |Print(tokens)|
    requires Lexer.Covers(RuleFile.Shipped(), Print(tokens), lexems, upto)
    ensures |lexems| <= |tokens| && S.Written(lexems, 0, tokens[..|lexems|])
    ensures Print(tokens)[upto..] == Print(tokens[|lexems|..])
    decreases |lexems|
  {
    hide Lexer.FirstRule, Lexer.Matches, RuleFile.RuleAt, RuleFile.RULES, AllRead, Print, Lexer.LineOf, Lexer.ColumnOf;
    var content, rules := Print(tokens), RuleFile.Shipped();
    if lexems == [] {
      assert content[0..] == content && tokens[0..] == tokens;
    } else {
      var n, last := |lexems| - 1, lexems[|lexems| - 1];
      var from := upto - |last.value|;
      CoversPrinted(tokens, lexems[..n], from);
      var s := content[from..];
      assert s != "" && s == Print(tokens[n..]);
      if n == |tokens| {
        PrintNothing(tokens[n..]);
      } else {
        AllReadFrom(tokens, n);
        NextPrinted(tokens[n..]);
        assert tokens[n..][1..] == tokens[n + 1..];
        assert content[upto..] == s[|last.value|..] && s[|tokens[n].value|..] == Print(tokens[n + 1..]);
        assert |content[upto..]| == |s| - |last.value|;
        assert last.value == s[..|last.value|] && tokens[n].value == s[..|tokens[n].value|];
        RuleNamed(Lexer.FirstRule(rules, s));
        WrittenMore(lexems, tokens, n);
      }
    }
  }

  lemma RuleNamed(k: nat)
    ensures k < |RuleFile.RULES| ==> RuleFile.Shipped()[k].name == RuleFile.RULES[k].0
    ensures k < |RuleFile.RULES| ==> RuleFile.Shipped()[k] == RuleFile.RuleAt(k)
  {
  }

  lemma WrittenMore(lexems: seq<Grammar.Lexem>, tokens: seq<S.Token>, n: nat)
    requires |lexems| == n + 1 <= |tokens| && S.Written(lexems[..n], 0, tokens[..n])
    requires lexems[n].kind == tokens[n].kind && lexems[n].value == tokens[n].value
    ensures S.Written(lexems, 0, tokens[..n + 1])
  {
    forall k | 0 <= k < n + 1
      ensures lexems[k].kind == tokens[..n + 1][k].kind && lexems[k].value == tokens[..n + 1][k].value
    {
      if k < n {
        assert lexems[..n][0 + k].kind == tokens[..n][k].kind;
      }
    }
  }

  lemma PrintNothing(tokens: seq<S.Token>)
    requires tokens == []
    ensures Print(tokens) == ""
  {
  }

  lemma NextPrinted(tokens: seq<S.Token>)
    requires tokens != []
    ensures Print(tokens)[|tokens[0].value|..] == Print(tokens[1..]) && tokens[0].value <= Print(tokens)
  {
  }

  /** Lexing stops only at the end of what is printed. */
  lemma AllCovered(tokens: seq<S.Token>, lexems: seq<Grammar.Lexem>, upto: nat)
    requires AllRead(tokens) && upto <= |Print(tokens)|
    requires Lexer.Covers(RuleFile.Shipped(), Print(tokens), lexems, upto)
    requires upto < |Print(tokens)| ==>
      Lexer.FirstRule(RuleFile.Shipped(), Print(tokens)[upto..]) == |RuleFile.RULES|
    ensures upto == |Print(tokens)| && |lexems| == |tokens| && S.Written(lexems, 0, tokens)
  {
    hide Lexer.Covers, Lexer.FirstRule, Lexer.Matches, RuleFile.RuleAt, RuleFile.RULES, AllRead, Print, S.Written;
    CoversPrinted(tokens, lexems, upto);
    LeftOver(tokens, |lexems|);
    assert tokens[..|tokens|] == tokens;
  }

  lemma LeftOver(tokens: seq<S.Token>, n: nat)
    requires AllRead(tokens) && n <= |tokens|
    ensures Print(tokens[n..]) == "" <==> n == |tokens|
    ensures n < |tokens| ==> Lexer.FirstRule(RuleFile.Shipped(), Print(tokens[n..])) < |RuleFile.RULES|
  {
    hide Lexer.FirstRule, Lexer.Matches, RuleFile.RuleAt, RuleFile.RULES, AllRead, Print;
    if n < |tokens| {
      AllReadFrom(tokens, n);
    } else {
      PrintNothing(tokens[n..]);
    }
  }

  /** The text of a program. */
  function Text(items: seq<S.Item>): string {
    Print(S.Tokens(items))
  }

  /** Whatever the statements are: what the lexer covers of their text is all of it, the parser accepts
      the lexemes, and their translation is what the statements denote. */
  lemma TextRead(items: seq<S.Item>, lexems: seq<Grammar.Lexem>, upto: nat)
    requires Printable(items) && upto <= |Text(items)|
    requires Lexer.Covers(RuleFile.Shipped(), Text(items), lexems, upto)
    requires upto < |Text(items)| ==> Lexer.FirstRule(RuleFile.Shipped(), Text(items)[upto..]) == |RuleFile.RULES|
    ensures upto == |Text(items)| && Grammar.Accepted(lexems) && Grammar.Program(lexems) == S.Whole(items)
  {
    hide Lexer.Covers, Lexer.FirstRule, Grammar.Accepted, Grammar.Program, S.Whole, S.Tokens, Print, AllRead, Spaced;
    hide ItemOk, S.Written, S.WellFormed;
    ItemsSpaced(items);
    SpacedRead(S.Tokens(items));
    AllCovered(S.Tokens(items), lexems, upto);
    forall k | 0 <= k < |items| && items[k].Code? ensures S.WellFormed(items[k].stmt) {
      ItemWellFormed(items[k]);
    }
    S.PrintedParses(lexems, items);
  }

  lemma ItemWellFormed(i: S.Item)
    requires ItemOk(i) && i.Code?
    ensures S.WellFormed(i.stmt)
  {
  }

  // ----- any text -----

  lemma PlainKinds(k: nat)
    requires k < |RuleFile.RULES| && (k < 5 || k >= 43)
    ensures Syntax.LexKind(RuleFile.RULES[k].0)
  {
    hide RuleFile.RULES, KindOf;
    LayoutTextsAre();
    LayoutKinds();
    PseudoTexts();
    OperandTextsAre();
    ParenTexts();
  }

  lemma RuleKind(k: nat)
    requires k < |RuleFile.RULES|
    ensures Syntax.LexKind(RuleFile.RULES[k].0)
  {
    hide RuleFile.RULES, KindOf, Grammar.MnemonicName, Spelled, Syntax.PLAIN, Syntax.PSEUDO;
    if 5 <= k < 43 {
      RuleOrder.RuledPosition(k);
      RuleOrder.RuledRow(k);
      KindIsName(RuleOrder.Ruled(k));
    } else {
      PlainKinds(k);
    }
  }

  /** The lexer produces only the types of the grammar. */
  lemma {:induction false} CoveredKinds(content: string, lexems: seq<Grammar.Lexem>, upto: nat)
    requires upto <= |content| && Lexer.Covers(RuleFile.Shipped(), content, lexems, upto)
    ensures Syntax.Lexed(lexems)
    decreases |lexems|
  {
    hide Lexer.FirstRule, Lexer.Matches, RuleFile.RuleAt, RuleFile.RULES, Syntax.LexKind, Lexer.LineOf, Lexer.ColumnOf;
    if lexems != [] {
      var n, last := |lexems| - 1, lexems[|lexems| - 1];
      var from := upto - |last.value|;
      CoveredKinds(content, lexems[..n], from);
      var j := Lexer.FirstRule(RuleFile.Shipped(), content[from..]);
      RuleNamed(j);
      RuleKind(j);
      forall k | 0 <= k < |lexems| ensures Syntax.LexKind(lexems[k].kind) {
        if k < n { assert lexems[..n][k] == lexems[k]; }
      }
    }
  }
}
