/** What the rules of the rule file make of the words of a program: mnemonics, registers, numbers,
    label names and separators (compilateur/database.txt, compilateur/src/lexem.c). */
module Reading {
  import opened Options
  import opened Regexp
  import opened Notation
  import opened Matcher
  import opened Lexer
  import opened RuleFile
  import opened Names
  import opened AsmLine
  import opened Spelling
  import opened RuleOrder
  import Grammar
  import Patterns

  /** The first rule of the file that matches has this type and takes this value. */
  predicate Reads(s: string, kind: string, value: string) {
    var j := FirstRule(Shipped(), s);
    value != "" && value <= s && j < |RULES| && RULES[j].0 == kind && Matches(RuleAt(j), s) == Some(s[|value|..])
  }

  predicate InName(c: char) {
    Letter(c) || Digit(c)
  }

  predicate IsName(name: string) {
    name != "" && Letter(name[0]) && forall k :: 0 <= k < |name| ==> InName(name[k])
  }

  /** The text behind a word: it ends, or goes on with what can be neither in a name nor a colon. */
  predicate Stops(rest: string) {
    rest == "" || (!InName(rest[0]) && rest[0] != ':')
  }

  // ----- the first rule -----

  lemma FirstAt(j: nat, s: string)
    requires j < |RULES| && Matches(RuleAt(j), s).Some?
    requires forall k :: 0 <= k < j ==> Matches(RuleAt(k), s).None?
    ensures FirstRule(Shipped(), s) == j
  {
    hide Matches, RuleAt, RULES, FirstRule;
    assert forall k :: 0 <= k < |RULES| ==> Shipped()[k] == RuleAt(k);
  }

  /** At a letter, by what the rules find. */
  lemma FirstFound(j: nat, value: string, rest: string)
    requires j < |RULES| && value != "" && Letter(value[0])
    requires forall k :: 0 <= k < j ==> !Finds(RULES[k].1, value + rest)
    requires Matches(RuleAt(j), value + rest) == Some(rest)
    ensures Reads(value + rest, RULES[j].0, value)
  {
    hide Matches, RuleAt, RULES, FirstRule, Finds, Letter;
    var s := value + rest;
    assert s[0] == value[0] && s[|value|..] == rest;
    forall k | 0 <= k < j ensures Matches(RuleAt(k), s).None? {
      FindsExact(k, s);
    }
    FirstAt(j, s);
  }

  // ----- what the earlier rules find -----

  /** A name ends where the text stops. */
  lemma {:induction false} NameEnds(name: string, rest: string)
    requires (forall k :: 0 <= k < |name| ==> InName(name[k])) && (rest == "" || !InName(rest[0]))
    ensures NameLength(name + rest) == |name|
    decreases |name|
  {
    if name == "" {
      assert name + rest == rest;
    } else {
      assert (name + rest)[1..] == name[1..] + rest && (name + rest)[0] == name[0];
      NameEnds(name[1..], rest);
    }
  }

  lemma LayoutTextsAre()
    ensures |RULES| == 57 && RULES[0].1 == "[ \\t]+" && RULES[1].1 == "\\n+" && RULES[2].1 == ";[^\\n]*"
    ensures RULES[3].1 == ","
    ensures RULES[4] == ("label", "[a-zA-Z_\\.][a-zA-Z_0-9\\.]*:")
  {
    hide RULES;
    Sizes();
    Parts(0);
    Parts(1);
    Parts(2);
    Parts(3);
    Parts(4);
  }

  /** No layout at a name that no colon follows. */
  lemma NoLayout(k: nat, name: string, rest: string)
    requires k < 5 && IsName(name) && (k == 4 ==> Stops(rest)) && k < |RULES|
    ensures !Finds(RULES[k].1, name + rest)
  {
    hide RULES, NameLength;
    var s := name + rest;
    assert s[0] == name[0];
    LayoutTextsAre();
    var text := RULES[k].1;
    if k == 4 {
      NameEnds(name, rest);
    } else if k == 3 {
      assert text[0] == ',';
    } else {
      assert text[0] in {'[', '\\', ';'};
    }
  }

  lemma SmallLower(w: string)
    requires Small(w) && w != ""
    ensures Lower(w)
  {
  }

  lemma FrontBeyond(w: string, text: string, rest: string)
    requires w <= text + rest && |w| > |text|
    ensures rest != "" && w[|text|] == rest[0]
  {
    assert w[|text|] == (text + rest)[|text|];
  }

  /** A word in small letters behind which the text stops: only its own fronts are at the front. */
  lemma FrontOfWord(w: string, text: string, rest: string)
    requires Small(w) && (rest == "" || !InName(rest[0]))
    ensures w <= text + rest <==> w <= text
  {
    var s := text + rest;
    assert s[..|text|] == text;
    if w <= text {
      assert w == text[..|w|] == s[..|w|];
    }
    if w <= s {
      if |w| <= |text| {
        assert w == s[..|w|] == text[..|w|];
      } else {
        FrontBeyond(w, text, rest);
      }
    }
  }

  lemma WordFinds(w: string, s: string)
    requires Small(w) && w != "" && s != ""
    ensures Finds(w, s) <==> w <= s
  {
    SmallLower(w);
    LowerIsPlain(w);
  }

  /** A mnemonic's rule finds it. */
  lemma InsnFinds(k: nat, text: string, rest: string)
    requires 5 <= k < 43 && k < |RULES| && text != "" && (rest == "" || !InName(rest[0]))
    ensures Ruled(k) != UNKNOWN && (Finds(RULES[k].1, text + rest) <==> Spelled(Ruled(k)) <= text)
  {
    hide RULES, Ruled, Spelled, Finds, Small, Grammar.MnemonicName, Capitals;
    RuledPosition(k);
    RuledRow(k);
    CapitalName(Ruled(k));
    WordFinds(Spelled(Ruled(k)), text + rest);
    FrontOfWord(Spelled(Ruled(k)), text, rest);
  }

  /** A rule without operators takes its own text. */
  lemma WordTaken(j: nat, rest: string)
    requires j < |RULES| && Lower(RULES[j].1)
    ensures Matches(RuleAt(j), RULES[j].1 + rest) == Some(rest)
  {
    hide RULES, Lower, Greedy, Groups, RuleAt, PiecesOf, Known, Patterns.Compile;
    var text := RULES[j].1;
    RuleGroups(j);
    LowerPieces(text);
    LowerIsPlain(text);
    WordMatches(text, text + rest);
    assert (text + rest)[|text|..] == rest;
  }

  lemma SmallName(w: string)
    requires Small(w) && w != ""
    ensures IsName(w)
  {
  }

  /** Every mnemonic, in small letters and not followed by more of a name or a colon, is read as what
      it is. */
  lemma MnemonicReads(m: Mnemonic, rest: string)
    requires m != UNKNOWN && Stops(rest)
    ensures Reads(Spelled(m) + rest, "insn::" + Capitals(Spelled(m)), Spelled(m))
    ensures Grammar.Str2Insn("insn::" + Capitals(Spelled(m))) == m
  {
    hide RULES, Position, Spelled, Finds, Small, Capitals, Extends, Reads, Matches, Ruled, Grammar.MnemonicName, RuleAt;
    hide IsName, Lower, Grammar.Str2Insn;
    InsnRead(m);
    MnemonicRow(m);
    CapitalName(m);
    var word := Spelled(m);
    SmallName(word);
    SmallLower(word);
    forall k | 0 <= k < Position(m) ensures !Finds(RULES[k].1, word + rest) {
      if k < 5 {
        NoLayout(k, word, rest);
      } else {
        InsnFinds(k, word, rest);
        if Spelled(Ruled(k)) <= word {
          PrefixExact(Ruled(k), m);
          RuledPosition(k);
          if Extends(Ruled(k), m) { LongerFirst(Ruled(k), m); }
        }
      }
    }
    WordTaken(Position(m), rest);
    FirstFound(Position(m), word, rest);
  }

  // ----- pseudo-instructions -----

  lemma PseudoTexts()
    ensures |RULES| == 57 && RULES[43] == ("unsinsn::J", "j") && RULES[44] == ("unsinsn::LI", "li")
    ensures RULES[45] == ("unsinsn::MV", "mv") && RULES[46] == ("unsinsn::BLE", "ble")
  {
    hide RULES;
    Sizes();
    Parts(43);
    Parts(44);
    Parts(45);
    Parts(46);
  }

  predicate Pseudo(kind: string, word: string) {
    (kind, word) in {("unsinsn::J", "j"), ("unsinsn::LI", "li"), ("unsinsn::MV", "mv"), ("unsinsn::BLE", "ble")}
  }

  lemma PseudoWord(k: nat)
    requires 43 <= k < 47
    ensures k < |RULES| && Small(RULES[k].1) && RULES[k].1 != "" && Pseudo(RULES[k].0, RULES[k].1)
  {
    hide RULES;
    PseudoTexts();
  }

  /** No mnemonic is the front of a pseudo-instruction. */
  lemma NoFrontOfPseudo(m: Mnemonic, k: nat)
    requires m != UNKNOWN && 43 <= k < 47
    ensures k < |RULES| && !(Spelled(m) <= RULES[k].1)
  {
    hide RULES, Spelled;
    PseudoTexts();
    LettersRead(m);
    CutSelf(m);
    Lengths(m);
    if Spelled(m) <= RULES[k].1 {
      FewLetters(RULES[k].1, Spelled(m));
    }
  }

  lemma FewLetters(s: string, w: string)
    requires w <= s && |w| >= 2
    ensures |s| >= |w| && s[0] == w[0] && s[1] == w[1] && (|w| > 2 ==> s[2] == w[2])
  {
  }

  lemma PseudoReads(k: nat, rest: string)
    requires 43 <= k < 47 && k < |RULES| && Stops(rest)
    ensures Reads(RULES[k].1 + rest, RULES[k].0, RULES[k].1)
  {
    hide RULES, Finds, Small, Reads, Matches, Ruled, RuleAt, IsName, Lower, Spelled;
    PseudoWord(k);
    var word := RULES[k].1;
    SmallName(word);
    SmallLower(word);
    forall i | 0 <= i < k ensures !Finds(RULES[i].1, word + rest) {
      if i < 5 {
        NoLayout(i, word, rest);
      } else if i < 43 {
        InsnFinds(i, word, rest);
        NoFrontOfPseudo(Ruled(i), k);
      } else {
        PseudoWord(i);
        WordFinds(RULES[i].1, word + rest);
        FrontOfWord(RULES[i].1, word, rest);
        PseudoApart(i, k);
      }
    }
    WordTaken(k, rest);
    FirstFound(k, word, rest);
  }

  lemma SameStart(w: string, s: string)
    requires w <= s && w != ""
    ensures s != "" && s[0] == w[0]
  {
  }

  lemma PseudoApart(i: nat, k: nat)
    requires 43 <= i < k < 47 && k < |RULES|
    ensures !(RULES[i].1 <= RULES[k].1)
  {
    hide RULES;
    PseudoTexts();
    if RULES[i].1 <= RULES[k].1 {
      SameStart(RULES[i].1, RULES[k].1);
    }
  }

  // ----- runs of characters -----

  /** A last `*` takes the characters it can. */
  lemma {:induction false} StarRun(g: Group, w: string, rest: string)
    requires g.op == ZOM && AllIn(g, w) && (rest == "" || !g.In(rest[0]))
    ensures Reported(Greedy([g], w + rest)) == Some(rest)
    decreases |w|
  {
    assert [g][1..] == [];
    if w == "" {
      assert w + rest == rest;
    } else {
      assert (w + rest)[1..] == w[1..] + rest && (w + rest)[0] == w[0];
      StarRun(g, w[1..], rest);
    }
  }

  lemma PlusRun(g: Group, w: string, rest: string)
    requires g.op == OOM && w != "" && AllIn(g, w) && (rest == "" || !g.In(rest[0]))
    ensures Reported(Greedy([g], w + rest)) == Some(rest)
  {
    assert With([g], ZOM) == [g.(op := ZOM)];
    assert (w + rest)[1..] == w[1..] + rest && (w + rest)[0] == w[0];
    StarRun(g.(op := ZOM), w[1..], rest);
  }

  /** A `*` with one plain group behind it. */
  lemma {:induction false} StarThen(g: Group, h: Group, w: string, c: char, rest: string)
    requires g.op == ZOM && AllIn(g, w) && !g.In(c) && h.op == Operator.NOP && h.In(c)
    ensures Reported(Greedy([g, h], w + [c] + rest)) == Some(rest)
    decreases |w|
  {
    var s := w + [c] + rest;
    assert [g, h][1..] == [h] && [h][1..] == [];
    if w == "" {
      assert s[0] == c && s[1..] == rest;
      assert Greedy([h], s) == Greedy([], rest) == Done(rest);
    } else {
      assert s[1..] == w[1..] + [c] + rest && s[0] == w[0];
      StarThen(g, h, w[1..], c, rest);
    }
  }

  // ----- registers -----

  lemma OperandTextsAre()
    ensures |RULES| == 57 && RULES[47] == ("integer::dec", "[\\-+]?[0-9]+")
    ensures RULES[48] == ("symbole::register", "r[0-9]+") && RULES[49] == ("symbole::register", "zero")
    ensures RULES[50] == ("symbole::register", "pc") && RULES[51] == ("symbole::register", "s[01p]")
    ensures RULES[52] == ("symbole::register", "a[0-7]") && RULES[53] == ("symbole::register", "ra")
    ensures RULES[54] == ("symbole::label", "[a-zA-Z_\\.][a-zA-Z_0-9\\.]*")
  {
    hide RULES;
    Sizes();
    Parts(47);
    Parts(48);
    Parts(49);
    Parts(50);
    Parts(51);
    Parts(52);
    Parts(53);
    Parts(54);
  }

  /** What the operand rules before that of references find at a name. */
  predicate OperandFront(k: nat, s: string) {
    match k
    case 48 => |s| > 1 && s[0] == 'r' && Digit(s[1])
    case 49 => "zero" <= s
    case 50 => "pc" <= s
    case 51 => |s| > 1 && s[0] == 's' && s[1] in {'0', '1', 'p'}
    case 52 => |s| > 1 && s[0] == 'a' && '0' <= s[1] <= '7'
    case 53 => "ra" <= s
    case _ => false
  }

  lemma OperandFinds(k: nat, name: string, rest: string)
    requires 47 <= k < 54 && k < |RULES| && IsName(name) && Stops(rest) && (name == "r" ==> rest != "")
    ensures Finds(RULES[k].1, name + rest) <==> OperandFront(k, name)
  {
    hide RULES, Finds;
    OperandTextsAre();
    var s := name + rest;
    assert s[0] == name[0];
    if k in {49, 50, 53} {
      WordFinds(RULES[k].1, s);
      FrontOfWord(RULES[k].1, name, rest);
    } else {
      assert |name| > 1 ==> s[1] == name[1];
      assert |name| == 1 && |s| > 1 ==> s[1] == rest[0];
      ClassFinds(k, s);
    }
  }

  lemma ClassFinds(k: nat, s: string)
    requires k in {47, 48, 51, 52} && k < |RULES| && s != ""
    ensures Finds(RULES[k].1, s) <==> if k == 48 then s[0] == 'r' && (|s| == 1 || Digit(s[1])) else OperandFront(k, s)
  {
    hide RULES, NameLength;
    OperandTextsAre();
    if k == 47 {
      assert RULES[k].1[0] == '[';
    }
    assert RULES[k].1[1] == '[' || RULES[k].1[0] == '[';
  }

  lemma RegisterLetters(m: Mnemonic)
    requires m != UNKNOWN
    ensures var l := LettersOf(m); l.length >= 2 && l.a !in {18, 26} && (l.a in {1, 19} ==> 1 <= l.b <= 26 && l.b != 16)
  {
  }

  lemma TwoStart(w: string, s: string)
    requires w <= s && |w| >= 2
    ensures |s| >= 2 && s[0] == w[0] && s[1] == w[1]
  {
  }

  lemma RegisterStart(r: Reg)
    requires r.Ok()
    ensures var s := r.Text();
      && |s| >= 2 && IsName(s) && s[0] in {'r', 'z', 's', 'a'} && (s[0] in {'s', 'a'} ==> Digit(s[1]) || s[1] == 'p')
      && OperandFront(RegisterRule(r), s) && forall k :: 47 <= k < RegisterRule(r) ==> !OperandFront(k, s)
  {
    hide Decimal;
    var s := r.Text();
    if r.R? {
      assert s[1] == Decimal(r.n)[0];
    } else if r.S? || r.A? {
      ShortDecimal(r.k);
      assert s[1] == DigitOf(r.k);
    }
    NotWords(s);
  }

  lemma NotWords(s: string)
    ensures |s| < 2 || s[0] != 'z' ==> !("zero" <= s)
    ensures |s| < 2 || s[0] != 'p' ==> !("pc" <= s)
    ensures |s| < 2 || s[1] != 'a' ==> !("ra" <= s)
  {
    if "zero" <= s { SameStart("zero", s); }
    if "pc" <= s { SameStart("pc", s); }
    if "ra" <= s { TwoStart("ra", s); }
  }

  function RegisterRule(r: Reg): nat {
    match r
    case R(_) => 48
    case Zero => 49
    case Ra => 53
    case Sp => 51
    case S(_) => 51
    case A(_) => 52
  }

  /** What every mnemonic and pseudo-instruction finds at a name. */
  lemma WordFront(k: nat, name: string, rest: string)
    requires 5 <= k < 47 && k < |RULES| && name != "" && (rest == "" || !InName(rest[0]))
    ensures Finds(RULES[k].1, name + rest) <==> RULES[k].1 <= name
    ensures Small(RULES[k].1) && RULES[k].1 != ""
  {
    hide RULES, Ruled, Spelled, Finds, Small, Grammar.MnemonicName, Capitals;
    if k < 43 {
      InsnFinds(k, name, rest);
      RuledRow(k);
      CapitalName(Ruled(k));
    } else {
      PseudoWord(k);
      WordFinds(RULES[k].1, name + rest);
      FrontOfWord(RULES[k].1, name, rest);
    }
  }

  lemma NoWordInRegister(r: Reg, k: nat)
    requires r.Ok() && 5 <= k < 47 && k < |RULES|
    ensures !(RULES[k].1 <= r.Text())
  {
    hide RULES, Ruled, Spelled, LettersOf, Grammar.MnemonicName, Reg.Text, OperandFront;
    RegisterStart(r);
    var text := RULES[k].1;
    if text <= r.Text() {
      if k < 43 {
        RuledRow(k);
        RuledPosition(k);
        LettersRead(Ruled(k));
        RegisterLetters(Ruled(k));
        TwoStart(text, r.Text());
      } else {
        PseudoTexts();
        SameStart(text, r.Text());
      }
    }
  }

  lemma RegisterTaken(r: Reg, rest: string)
    requires r.Ok() && Stops(rest)
    ensures |RULES| == 57 && Matches(RuleAt(RegisterRule(r)), r.Text() + rest) == Some(rest)
  {
    hide RULES, RuleAt, Matches, Decimal;
    OperandTextsAre();
    if r.R? {
      NumberedTaken(r.n, rest);
    } else if r.Zero? || r.Ra? {
      assert Lower("zero") && Lower("ra");
      WordTaken(RegisterRule(r), rest);
    } else {
      RegisterStart(r);
      if !r.Sp? { ShortDecimal(r.k); }
      assert r.Text() == [r.Text()[0], r.Text()[1]];
      PairTaken(RegisterRule(r), r.Text()[0], r.Text()[1], rest);
    }
  }

  lemma NumberedTaken(n: nat, rest: string)
    requires Stops(rest)
    ensures |RULES| == 57 && Matches(RuleAt(48), "r" + Decimal(n) + rest) == Some(rest)
  {
    hide RULES, RuleAt, GroupOf, Patterns.Compile;
    OperandTextsAre();
    RuleGroups(48);
    DigitGroup();
    OneOf('r');
    GroupsOfFew(REGISTER);
    GroupOp(REGISTER[0]);
    GroupOp(REGISTER[1]);
    var gs := Groups(REGISTER);
    var s := "r" + Decimal(n) + rest;
    assert gs[1..] == [gs[1]] && s[1..] == Decimal(n) + rest && s[0] == 'r';
    PlusRun(gs[1], Decimal(n), rest);
  }

  lemma PairTaken(k: nat, a: char, b: char, rest: string)
    requires (k == 51 && a == 's' && b in {'0', '1', 'p'}) || (k == 52 && a == 'a' && '0' <= b <= '7')
    ensures |RULES| == 57 && Matches(RuleAt(k), [a, b] + rest) == Some(rest)
  {
    hide RULES, RuleAt, GroupOf, Patterns.Compile;
    OperandTextsAre();
    RuleGroups(k);
    var ps := if k == 51 then SAVED else ARGUMENT;
    SavedGroup();
    ArgumentGroup();
    OneOf(a);
    GroupsOfFew(ps);
    GroupOp(ps[0]);
    GroupOp(ps[1]);
    PairThen(Groups(ps), a, b, rest);
  }

  lemma PairThen(gs: seq<Group>, a: char, b: char, rest: string)
    requires |gs| == 2 && gs[0].op == gs[1].op == Operator.NOP && gs[0].In(a) && gs[1].In(b)
    ensures Reported(Greedy(gs, [a, b] + rest)) == Some(rest)
  {
    var s := [a, b] + rest;
    assert gs[1..] == [gs[1]] && gs[1..][1..] == [] && s[1..] == [b] + rest && s[1..][1..] == rest;
    assert Greedy(gs[1..], s[1..]) == Greedy([], rest);
  }

  /** Every register, by any of its names, is read as a register. */
  lemma RegisterReads(r: Reg, rest: string)
    requires r.Ok() && Stops(rest)
    ensures Reads(r.Text() + rest, "symbole::register", r.Text())
  {
    hide RULES, Finds, Reads, Matches, RuleAt, IsName, Reg.Text, OperandFront, Reg.Ok;
    RegisterStart(r);
    OperandTextsAre();
    var text := r.Text();
    forall k | 0 <= k < RegisterRule(r) ensures !Finds(RULES[k].1, text + rest) {
      if k < 5 {
        NoLayout(k, text, rest);
      } else if k < 47 {
        WordFront(k, text, rest);
        NoWordInRegister(r, k);
      } else {
        OperandFinds(k, text, rest);
      }
    }
    RegisterTaken(r, rest);
    FirstFound(RegisterRule(r), text, rest);
  }

  // ----- label names -----

  /** No mnemonic and no register is at the front of the name. */
  ghost predicate Referable(name: string) {
    && IsName(name)
    && (forall m: Mnemonic :: m != UNKNOWN ==> !(Spelled(m) <= name))
    && !("j" <= name) && !("li" <= name) && !("mv" <= name) && !("ble" <= name)
    && !("zero" <= name) && !("pc" <= name) && !("ra" <= name)
    && (|name| > 1 && name[0] == 'r' ==> !Digit(name[1]))
    && (|name| > 1 && name[0] == 's' ==> name[1] !in {'0', '1', 'p'})
    && (|name| > 1 && name[0] == 'a' ==> !('0' <= name[1] <= '7'))
  }

  lemma NameTaken(name: string, rest: string)
    requires IsName(name) && Stops(rest)
    ensures |RULES| == 57 && Matches(RuleAt(54), name + rest) == Some(rest)
  {
    hide RULES, RuleAt, GroupOf, Patterns.Compile;
    OperandTextsAre();
    RuleGroups(54);
    NameGroups();
    GroupsOfFew(NAME);
    GroupOp(NAME[0]);
    GroupOp(NAME[1]);
    var gs := Groups(NAME);
    var s := name + rest;
    assert gs[1..] == [gs[1]] && s[1..] == name[1..] + rest && s[0] == name[0];
    StarRun(gs[1], name[1..], rest);
  }

  lemma WordOfReferable(k: nat, name: string)
    requires 5 <= k < 47 && k < |RULES| && Referable(name)
    ensures !(RULES[k].1 <= name)
  {
    hide RULES, Ruled, Spelled, Grammar.MnemonicName;
    if k < 43 {
      RuledRow(k);
      RuledPosition(k);
    } else {
      PseudoTexts();
    }
  }

  lemma NotReference(j: nat)
    requires j < 54
    ensures j < |RULES| && RULES[j].0 != "symbole::label"
  {
    hide RULES, Ruled, Grammar.MnemonicName, Spelled;
    LayoutTextsAre();
    LayoutKinds();
    PseudoTexts();
    OperandTextsAre();
    if 5 <= j < 43 {
      RuledRow(j);
      assert RULES[j].0[0] == 'i';
    }
  }

  /** Some earlier rule finds something at any other name. */
  lemma FoundBefore(name: string, rest: string) returns (k: nat)
    requires IsName(name) && Stops(rest) && rest != "" && !Referable(name)
    ensures k < 54 < |RULES| && Finds(RULES[k].1, name + rest)
  {
    hide RULES, Finds, Spelled, Position, KindOf, IsName, Stops;
    PseudoTexts();
    NameStarts(name, rest);
    if m: Mnemonic :| m != UNKNOWN && Spelled(m) <= name {
      k := Position(m);
      MnemonicRow(m);
      WordFront(k, name, rest);
    } else if "j" <= name || "li" <= name || "mv" <= name || "ble" <= name {
      k := if "j" <= name then 43 else if "li" <= name then 44 else if "mv" <= name then 45 else 46;
      WordFront(k, name, rest);
    } else {
      k := if "zero" <= name then 49 else if "pc" <= name then 50 else if "ra" <= name then 53
        else if name[0] == 'r' then 48 else if name[0] == 's' then 51 else 52;
      OperandFinds(k, name, rest);
    }
  }

  lemma NameStarts(name: string, rest: string)
    requires IsName(name) && Stops(rest)
    ensures name != "" && (rest == "" || !InName(rest[0]))
  {
  }

  /** A name is read whole, as a label reference, exactly when it has no mnemonic and no register at
      its front. */
  lemma ReferenceReads(name: string, rest: string)
    requires IsName(name) && Stops(rest) && rest != ""
    ensures Reads(name + rest, "symbole::label", name) <==> Referable(name)
  {
    hide RULES, Finds, Matches, RuleAt, Referable, FirstRule;
    OperandTextsAre();
    var s := name + rest;
    assert s[0] == name[0];
    if Referable(name) {
      forall k | 0 <= k < 54 ensures !Finds(RULES[k].1, s) {
        NoneBefore(k, name, rest);
      }
      NameTaken(name, rest);
      FirstFound(54, name, rest);
    } else {
      var k := FoundBefore(name, rest);
      FindsExact(k, s);
      assert Shipped()[k] == RuleAt(k);
      assert FirstRule(Shipped(), s) <= k;
      NotReference(FirstRule(Shipped(), s));
    }
  }

  lemma NoneBefore(k: nat, name: string, rest: string)
    requires k < 54 && k < |RULES| && Referable(name) && Stops(rest) && (name == "r" ==> rest != "")
    ensures !Finds(RULES[k].1, name + rest) && IsName(name) && Letter(name[0])
  {
    hide RULES, Finds, Spelled;
    if k < 5 {
      NoLayout(k, name, rest);
    } else if k < 47 {
      WordOfReferable(k, name);
      WordFront(k, name, rest);
    } else {
      OperandFinds(k, name, rest);
    }
  }

  /** Any name with a colon is read as a label definition. */
  lemma LabelReads(name: string, rest: string)
    requires IsName(name)
    ensures Reads(name + ":" + rest, "label", name + ":")
  {
    hide RULES, Finds, Reads, Matches, RuleAt;
    LayoutTextsAre();
    forall k | 0 <= k < 4 ensures !Finds(RULES[k].1, name + ":" + rest) {
      NoLayout(k, name, ":" + rest);
      assert name + ":" + rest == name + (":" + rest);
    }
    LabelTaken(name, rest);
    assert name + ":" + rest == (name + ":") + rest;
    FirstFound(4, name + ":", rest);
  }

  lemma LabelTaken(name: string, rest: string)
    requires IsName(name)
    ensures |RULES| == 57 && Matches(RuleAt(4), name + ":" + rest) == Some(rest)
  {
    hide RULES, RuleAt, GroupOf, Patterns.Compile;
    LayoutTextsAre();
    RuleGroups(4);
    NameGroups();
    GroupsOfFew(LABEL);
    GroupOp(LABEL[0]);
    GroupOp(LABEL[1]);
    GroupOp(LABEL[2]);
    var gs := Groups(LABEL);
    var s := name + ":" + rest;
    assert gs[1..] == [gs[1], gs[2]] && s[1..] == name[1..] + [':'] + rest && s[0] == name[0];
    StarThen(gs[1], gs[2], name[1..], ':', rest);
  }

  // ----- separators and numbers -----

  /** What a rule's matches start with. */
  predicate StartOf(k: nat, c: char) {
    match k
    case 0 => c in {' ', '\t'}
    case 1 => c == '\n'
    case 2 => c == ';'
    case 3 => c == ','
    case 47 => c in {'-', '+'} || Digit(c)
    case 55 => c == '('
    case 56 => c == ')'
    case _ => Letter(c)
  }

  lemma GroupStarts(gs: seq<Group>, s: string)
    requires s != "" && gs != [] && gs[0].op in {Operator.NOP, OOM} && Reported(Greedy(gs, s)).Some?
    ensures gs[0].In(s[0])
  {
  }

  lemma OptionStarts(gs: seq<Group>, s: string)
    requires s != "" && |gs| == 2 && gs[0].op == ZOO && gs[1].op == OOM && Reported(Greedy(gs, s)).Some?
    ensures gs[0].In(s[0]) || gs[1].In(s[0])
  {
    assert gs[1..] == [gs[1]];
  }

  lemma LayoutGroups()
    ensures forall c :: GroupOf(BLANK[0]).In(c) <==> c in {' ', '\t'}
    ensures forall c :: GroupOf(RuleFile.NEWLINE[0]).In(c) <==> c == '\n'
    ensures forall c :: GroupOf(COMMENT[0]).In(c) <==> c == ';'
  {
    var items := BLANK[0].atom.items;
    assert ItemHas(items[0], ' ') && ItemHas(items[1], '\t');
    OneOf(';');
  }

  lemma NumberGroups()
    ensures forall c :: GroupOf(INTEGER[0]).In(c) <==> c in {'-', '+'}
    ensures forall c :: GroupOf(INTEGER[1]).In(c) <==> Digit(c)
  {
    IntegerApart();
    assert forall c :: Digit(c) ==> ItemHas(INTEGER[1].atom.items[0], c);
  }

  lemma ParenTexts()
    ensures |RULES| == 57 && RULES[55] == ("paren::left", "(") && RULES[56] == ("paren::right", ")")
  {
    hide RULES;
    Sizes();
    Parts(55);
    Parts(56);
  }

  lemma LayoutStarts(k: nat, s: string)
    requires k < 3 && k < |RULES| && s != "" && Matches(RuleAt(k), s).Some?
    ensures StartOf(k, s[0])
  {
    hide RULES, RuleAt, GroupOf, Patterns.Compile, Greedy;
    LayoutTextsAre();
    RuleGroups(k);
    LayoutGroups();
    var ps := PiecesOf(RULES[k].1);
    GroupsOfFew(ps);
    GroupOp(ps[0]);
    GroupStarts(Groups(ps), s);
  }

  lemma ClassStarts(k: nat, s: string)
    requires k in {4, 48, 51, 52, 54} && k < |RULES| && s != "" && Matches(RuleAt(k), s).Some?
    ensures StartOf(k, s[0])
  {
    hide RULES, RuleAt, GroupOf, Patterns.Compile, Greedy;
    LayoutTextsAre();
    OperandTextsAre();
    RuleGroups(k);
    NameGroups();
    OneOf('r');
    OneOf('s');
    OneOf('a');
    var ps := PiecesOf(RULES[k].1);
    GroupsOfFew(ps);
    GroupOp(ps[0]);
    GroupStarts(Groups(ps), s);
  }

  lemma IntegerStarts(s: string)
    requires s != "" && 47 < |RULES| && Matches(RuleAt(47), s).Some?
    ensures StartOf(47, s[0])
  {
    hide RULES, RuleAt, GroupOf, Patterns.Compile, Greedy;
    OperandTextsAre();
    RuleGroups(47);
    NumberGroups();
    GroupsOfFew(INTEGER);
    GroupOp(INTEGER[0]);
    GroupOp(INTEGER[1]);
    OptionStarts(Groups(INTEGER), s);
  }

  lemma PlainStarts(k: nat, s: string)
    requires k < |RULES| && Lower(RULES[k].1) && s != "" && Matches(RuleAt(k), s).Some?
    ensures RULES[k].1 != "" && s[0] == RULES[k].1[0]
  {
    hide RULES, RuleAt, Patterns.Compile, Greedy, PiecesOf, Groups, Lower;
    RuleGroups(k);
    LowerFinds(RULES[k].1, s);
    LowerPieces(RULES[k].1);
    LowerIsPlain(RULES[k].1);
    SameStart(RULES[k].1, s);
  }

  lemma PlainTexts(k: nat)
    requires k < |RULES| && k !in {0, 1, 2, 4, 47, 48, 51, 52, 54}
    ensures Lower(RULES[k].1) && (k in {3, 55, 56} || Letter(RULES[k].1[0])) && StartOf(k, RULES[k].1[0])
  {
    hide RULES, Ruled, Spelled, Grammar.MnemonicName;
    LayoutTextsAre();
    OperandTextsAre();
    ParenTexts();
    if 5 <= k < 47 {
      WordFront(k, "x", "");
      SmallLower(RULES[k].1);
    }
  }

  /** A rule matches only where one of its words can start. */
  lemma Starts(k: nat, s: string)
    requires k < |RULES| && s != "" && Matches(RuleAt(k), s).Some?
    ensures StartOf(k, s[0])
  {
    hide RULES, RuleAt, Matches, Lower, StartOf;
    if k < 3 {
      LayoutStarts(k, s);
    } else if k in {4, 48, 51, 52, 54} {
      ClassStarts(k, s);
    } else if k == 47 {
      IntegerStarts(s);
    } else {
      PlainTexts(k);
      PlainStarts(k, s);
    }
  }

  /** By what the rules start with. */
  lemma FirstStarted(j: nat, value: string, rest: string)
    requires j < |RULES| && value != "" && forall k :: 0 <= k < j ==> !StartOf(k, value[0])
    requires Matches(RuleAt(j), value + rest) == Some(rest)
    ensures Reads(value + rest, RULES[j].0, value)
  {
    hide Matches, RuleAt, RULES, FirstRule, StartOf;
    var s := value + rest;
    assert s[0] == value[0] && s[|value|..] == rest;
    forall k | 0 <= k < j ensures Matches(RuleAt(k), s).None? {
      if Matches(RuleAt(k), s).Some? { Starts(k, s); }
    }
    FirstAt(j, s);
  }

  lemma LayoutKinds()
    ensures |RULES| == 57 && RULES[0].0 == "blank" && RULES[1].0 == "newline" && RULES[2].0 == "comment"
    ensures RULES[3] == ("comma", ",")
  {
    hide RULES;
    Sizes();
    Parts(0);
    Parts(1);
    Parts(2);
    Parts(3);
  }

  lemma BlankReads(rest: string)
    requires rest == "" || rest[0] !in {' ', '\t'}
    ensures Reads(" " + rest, "blank", " ")
  {
    hide RULES, RuleAt, GroupOf, Patterns.Compile, Greedy, Reads, FirstRule;
    LayoutTextsAre();
    LayoutKinds();
    RuleGroups(0);
    LayoutGroups();
    GroupsOfFew(BLANK);
    GroupOp(BLANK[0]);
    PlusRun(GroupOf(BLANK[0]), " ", rest);
    FirstStarted(0, " ", rest);
  }

  lemma NewlineReads(rest: string)
    requires rest == "" || rest[0] != '\n'
    ensures Reads("\n" + rest, "newline", "\n")
  {
    hide RULES, RuleAt, GroupOf, Patterns.Compile, Greedy, Reads, FirstRule;
    LayoutTextsAre();
    LayoutKinds();
    RuleGroups(1);
    LayoutGroups();
    GroupsOfFew(RuleFile.NEWLINE);
    GroupOp(RuleFile.NEWLINE[0]);
    PlusRun(GroupOf(RuleFile.NEWLINE[0]), "\n", rest);
    FirstStarted(1, "\n", rest);
  }

  lemma SeparatorReads(rest: string)
    ensures Reads("," + rest, "comma", ",") && Reads("(" + rest, "paren::left", "(")
    ensures Reads(")" + rest, "paren::right", ")")
  {
    hide RULES, RuleAt, Matches, Reads;
    LayoutKinds();
    ParenTexts();
    assert Lower(",") && Lower("(") && Lower(")");
    WordTaken(3, rest);
    WordTaken(55, rest);
    WordTaken(56, rest);
    FirstStarted(3, ",", rest);
    FirstStarted(55, "(", rest);
    FirstStarted(56, ")", rest);
  }

  lemma NumberTaken(n: int, rest: string)
    requires Stops(rest)
    ensures |RULES| == 57 && Matches(RuleAt(47), Number(n) + rest) == Some(rest)
  {
    hide RULES, RuleAt, GroupOf, Patterns.Compile;
    OperandTextsAre();
    RuleGroups(47);
    NumberGroups();
    GroupsOfFew(INTEGER);
    GroupOp(INTEGER[0]);
    GroupOp(INTEGER[1]);
    SignedRun(Groups(INTEGER), Decimal(if n < 0 then -n else n), rest);
  }

  /** Digits, after a skipped sign and after one that is there. */
  lemma SignedRun(gs: seq<Group>, digits: string, rest: string)
    requires |gs| == 2 && gs[0].op == ZOO && gs[1].op == OOM && Stops(rest)
    requires (forall c :: gs[0].In(c) <==> c in {'-', '+'}) && forall c :: gs[1].In(c) <==> Digit(c)
    requires digits != "" && forall k :: 0 <= k < |digits| ==> Digit(digits[k])
    ensures Reported(Greedy(gs, digits + rest)) == Some(rest)
    ensures Reported(Greedy(gs, "-" + digits + rest)) == Some(rest)
  {
    hide Greedy;
    var s, t := digits + rest, "-" + digits + rest;
    var g := gs[1];
    assert gs[1..] == [g] && s[0] == digits[0] && t[0] == '-' && t[1..] == s;
    PlusRun(g, digits, rest);
    StepOption(gs, s);
    StepOption(gs, t);
  }

  lemma StepOption(gs: seq<Group>, s: string)
    requires gs != [] && gs[0].op == ZOO && s != ""
    ensures Greedy(gs, s) == Greedy(gs[1..], if gs[0].In(s[0]) then s[1..] else s)
  {
  }

  /** Every decimal number is read whole. */
  lemma NumberReads(n: int, rest: string)
    requires Stops(rest)
    ensures Reads(Number(n) + rest, "integer::dec", Number(n))
  {
    hide RULES, RuleAt, Matches, Reads, Decimal;
    OperandTextsAre();
    var value := Number(n);
    assert value[0] == '-' || Digit(value[0]);
    NumberTaken(n, rest);
    FirstStarted(47, value, rest);
  }
}
