/** Which names the lexer sees as label references. Rules are tried in the order of the rule file, so
    a name that starts like a mnemonic is cut there. */
module Names {
  import opened Options
  import opened Regexp
  import opened Patterns
  import opened Notation
  import opened Matcher
  import opened Lexer
  import opened RuleFile

  /** The number of the rule for label references. */
  const REFERENCE := 54

  predicate Letter(c: char) {
    'a' <= c <= 'z' || 'A' <= c <= 'Z' || c == '_' || c == '.'
  }

  predicate Digit(c: char) {
    '0' <= c <= '9'
  }

  /** How many characters at the front of a text can be in a name. */
  function NameLength(s: string): (n: nat)
    ensures n <= |s|
  {
    if s != "" && (Letter(s[0]) || Digit(s[0])) then 1 + NameLength(s[1..]) else 0
  }

  /** What a rule's text finds at the front of a text that starts with a letter. */
  predicate Finds(text: string, s: string)
    requires s != ""
  {
    if text == "[a-zA-Z_\\.][a-zA-Z_0-9\\.]*:" then NameLength(s) < |s| && s[NameLength(s)] == ':'
    else if text == "[a-zA-Z_\\.][a-zA-Z_0-9\\.]*" then true
    else if text == "r[0-9]+" then s[0] == 'r' && (|s| == 1 || Digit(s[1]))
    else if text == "s[01p]" then |s| >= 2 && s[0] == 's' && s[1] in {'0', '1', 'p'}
    else if text == "a[0-7]" then |s| >= 2 && s[0] == 'a' && '0' <= s[1] <= '7'
    else Lower(text) && text <= s
  }

  // ----- the groups of the file's patterns -----

  lemma NameGroups()
    ensures forall c :: GroupOf(LABEL[0]).In(c) <==> Letter(c)
    ensures forall c :: GroupOf(LABEL[1]).In(c) <==> Letter(c) || Digit(c)
    ensures forall c :: GroupOf(LABEL[2]).In(c) <==> c == ':'
  {
    FirstOfName();
    RestOfName();
    OneOf(':');
  }

  lemma FirstOfName()
    ensures forall c :: GroupOf(LABEL[0]).In(c) <==> Letter(c)
  {
    var items := LABEL[0].atom.items;
    forall c | Letter(c) ensures exists k :: 0 <= k < |items| && ItemHas(items[k], c) {
      assert ItemHas(items[0], c) || ItemHas(items[1], c) || ItemHas(items[2], c) || ItemHas(items[3], c);
    }
  }

  lemma RestOfName()
    ensures forall c :: GroupOf(LABEL[1]).In(c) <==> Letter(c) || Digit(c)
  {
    var items := LABEL[1].atom.items;
    forall c | Letter(c) || Digit(c) ensures exists k :: 0 <= k < |items| && ItemHas(items[k], c) {
      assert ItemHas(items[0], c) || ItemHas(items[1], c) || ItemHas(items[2], c)
        || ItemHas(items[3], c) || ItemHas(items[4], c);
    }
  }

  lemma DigitGroup()
    ensures forall c :: GroupOf(REGISTER[1]).In(c) <==> Digit(c)
  {
    assert forall c :: Digit(c) ==> ItemHas(REGISTER[1].atom.items[0], c);
  }

  lemma SavedGroup()
    ensures forall c :: GroupOf(SAVED[1]).In(c) <==> c in {'0', '1', 'p'}
  {
    var items := SAVED[1].atom.items;
    assert ItemHas(items[0], '0') && ItemHas(items[1], '1') && ItemHas(items[2], 'p');
  }

  lemma ArgumentGroup()
    ensures forall c :: GroupOf(ARGUMENT[1]).In(c) <==> '0' <= c <= '7'
  {
    assert forall c :: '0' <= c <= '7' ==> ItemHas(ARGUMENT[1].atom.items[0], c);
  }

  // ----- single rules -----

  /** A word is found exactly where it is a prefix. */
  lemma {:induction false} WordMatches(w: string, s: string)
    requires w != "" && Scannable(w)
    ensures Reported(Greedy(Groups(Word(w)), s)) == if w <= s then Some(s[|w|..]) else None
    decreases |w|
  {
    hide GroupOf;
    var gs := Groups(Word(w));
    assert gs[1..] == Groups(Word(w[1..]));
    GroupOp(Is(w[0]));
    OneOf(w[0]);
    if s != "" && s[0] == w[0] {
      if |w| == 1 {
        assert Groups(Word(w[1..])) == [];
      } else {
        WordMatches(w[1..], s[1..]);
      }
    }
  }

  /** A last `*` always ends in a match. */
  lemma {:induction false} StarAlways(g: Group, s: string)
    requires g.op == ZOM
    ensures Reported(Greedy([g], s)).Some?
    decreases |s|
  {
    assert [g][1..] == [];
    if s != "" && g.In(s[0]) {
      StarAlways(g, s[1..]);
    }
  }

  /** A name and a colon. */
  lemma {:induction false} ColonFound(s: string)
    ensures Reported(Greedy([GroupOf(LABEL[1]), GroupOf(LABEL[2])], s)).Some? <==>
            NameLength(s) < |s| && s[NameLength(s)] == ':'
    decreases |s|
  {
    hide GroupOf;
    var b, c := GroupOf(LABEL[1]), GroupOf(LABEL[2]);
    NameGroups();
    GroupOp(LABEL[1]);
    GroupOp(LABEL[2]);
    assert [b, c][1..] == [c] && [c][1..] == [];
    if s != "" && b.In(s[0]) {
      ColonFound(s[1..]);
    } else if s != "" {
      OneFound([c], s);
    }
  }

  /** A plain group. */
  lemma OneFound(gs: seq<Group>, s: string)
    requires |gs| == 1 && gs[0].op == NOP
    ensures Reported(Greedy(gs, s)).Some? <==> s != "" && gs[0].In(s[0])
  {
    assert s != "" ==> Greedy(gs[1..], s[1..]) == Done(s[1..]);
  }

  lemma LabelFound(s: string)
    requires s != "" && Letter(s[0])
    ensures Reported(Greedy(Groups(LABEL), s)).Some? <==> NameLength(s) < |s| && s[NameLength(s)] == ':'
    ensures Reported(Greedy(Groups(NAME), s)).Some?
  {
    hide GroupOf;
    NameGroups();
    GroupsOfFew(LABEL);
    GroupsOfFew(NAME);
    GroupOp(LABEL[0]);
    GroupOp(LABEL[1]);
    var gs := Groups(LABEL);
    assert gs[1..] == [gs[1], gs[2]] && Groups(NAME)[1..] == [gs[1]];
    ColonFound(s[1..]);
    StarAlways(gs[1], s[1..]);
  }

  lemma RegisterFound(s: string)
    requires s != ""
    ensures Reported(Greedy(Groups(REGISTER), s)).Some? <==> s[0] == 'r' && (|s| == 1 || Digit(s[1]))
  {
    hide GroupOf;
    DigitGroup();
    OneOf('r');
    GroupsOfFew(REGISTER);
    GroupOp(REGISTER[0]);
    GroupOp(REGISTER[1]);
    var gs := Groups(REGISTER);
    assert gs[1..] == [gs[1]];
    if |s| > 1 {
      assert With([gs[1]], ZOM) == [gs[1].(op := ZOM)];
      StarAlways(gs[1].(op := ZOM), s[1..][1..]);
    }
  }

  /** Two plain groups. */
  lemma PairFound(gs: seq<Group>, s: string)
    requires |gs| == 2 && gs[0].op == NOP && gs[1].op == NOP && s != ""
    ensures Reported(Greedy(gs, s)).Some? <==> |s| >= 2 && gs[0].In(s[0]) && gs[1].In(s[1])
  {
    assert gs[1..] == [gs[1]];
    OneFound(gs[1..], s[1..]);
  }

  lemma PairsFound(s: string)
    requires s != ""
    ensures Reported(Greedy(Groups(SAVED), s)).Some? <==> |s| >= 2 && s[0] == 's' && s[1] in {'0', '1', 'p'}
    ensures Reported(Greedy(Groups(ARGUMENT), s)).Some? <==> |s| >= 2 && s[0] == 'a' && '0' <= s[1] <= '7'
  {
    hide GroupOf, Greedy;
    SavedGroup();
    ArgumentGroup();
    OneOf('s');
    OneOf('a');
    GroupsOfFew(SAVED);
    GroupsOfFew(ARGUMENT);
    GroupOp(SAVED[0]);
    GroupOp(SAVED[1]);
    GroupOp(ARGUMENT[0]);
    GroupOp(ARGUMENT[1]);
    PairFound(Groups(SAVED), s);
    PairFound(Groups(ARGUMENT), s);
  }

  /** Nothing is found where no word can start. */
  lemma {:induction false} CannotStart(gs: seq<Group>, s: string)
    requires s != "" && !First(gs, s[0]) && !Nullable(gs)
    ensures Reported(Greedy(gs, s)).None?
    decreases |gs|
  {
    if gs[0].op.Allows(0) {
      assert forall k :: 0 <= k < |gs[1..]| ==> gs[1..][k] == gs[k + 1];
      CannotStart(gs[1..], s);
    }
  }

  lemma OthersFindNothing(s: string)
    requires s != "" && Letter(s[0])
    ensures Reported(Greedy(Groups(BLANK), s)).None? && Reported(Greedy(Groups(NEWLINE), s)).None?
    ensures Reported(Greedy(Groups(COMMENT), s)).None? && Reported(Greedy(Groups(INTEGER), s)).None?
  {
    hide GroupOf, Greedy;
    OtherGroups(s[0]);
    GroupsOfFew(BLANK);
    GroupsOfFew(NEWLINE);
    GroupsOfFew(COMMENT);
    GroupsOfFew(INTEGER);
    GroupOp(BLANK[0]);
    GroupOp(NEWLINE[0]);
    GroupOp(COMMENT[0]);
    GroupOp(INTEGER[1]);
    assert Groups(INTEGER)[1..] == [GroupOf(INTEGER[1])];
    CannotStart(Groups(BLANK), s);
    CannotStart(Groups(NEWLINE), s);
    CannotStart(Groups(COMMENT), s);
    CannotStart(Groups(INTEGER), s);
  }

  lemma OtherGroups(c: char)
    requires Letter(c)
    ensures !GroupOf(BLANK[0]).In(c) && !GroupOf(NEWLINE[0]).In(c) && !GroupOf(COMMENT[0]).In(c)
    ensures !GroupOf(INTEGER[0]).In(c) && !GroupOf(INTEGER[1]).In(c)
  {
  }

  // ----- the first rule -----

  /** What each rule of the file finds. */
  lemma FindsExact(k: nat, s: string)
    requires k < |RULES| && s != "" && Letter(s[0])
    ensures Matches(RuleAt(k), s).Some? <==> Finds(RULES[k].1, s)
  {
    hide Greedy, Groups, Lower, NameLength, Letter, Compile, RuleAt;
    var text := RULES[k].1;
    RuleGroups(k);
    RuleTexts(k);
    if Lower(text) {
      LowerFinds(text, s);
    } else {
      LabelFound(s);
      RegisterFound(s);
      PairsFound(s);
      OthersFindNothing(s);
    }
  }

  lemma LowerFinds(text: string, s: string)
    requires Lower(text) && s != ""
    ensures Reported(Greedy(Groups(PiecesOf(text)), s)).Some? <==> Finds(text, s)
  {
    hide Greedy, Groups, Word, Lower, PiecesOf;
    LowerPieces(text);
    LowerIsPlain(text);
    WordMatches(text, s);
  }

  lemma LowerIsPlain(text: string)
    requires Lower(text)
    ensures text != "" && Scannable(text) && text !in OPERATED
  {
    forall t | t in OPERATED ensures text != t {
      assert t[0] in {'[', '\\', ';'} || t[1] == '[';
    }
  }

  /** At a letter the lexer sees a label reference exactly when no earlier rule finds anything: no
      mnemonic or register at the front, and no colon behind the name. */
  lemma ReferenceExact(s: string)
    requires s != "" && Letter(s[0])
    ensures FirstRule(Shipped(), s) == REFERENCE <==> forall k :: 0 <= k < REFERENCE ==> !Finds(RULES[k].1, s)
  {
    hide Finds, FirstRule, Matches, RuleAt;
    forall k | 0 <= k < |RULES|
      ensures Shipped()[k] == RuleAt(k) && (Matches(Shipped()[k], s).Some? <==> Finds(RULES[k].1, s)) {
      FindsExact(k, s);
    }
    ReferenceRule(s);
    var j := FirstRule(Shipped(), s);
    if j != REFERENCE {
      assert j < REFERENCE;
      assert Finds(RULES[j].1, s);
    }
  }

  lemma ReferenceRule(s: string)
    requires s != ""
    ensures RULES[REFERENCE] == ("symbole::label", "[a-zA-Z_\\.][a-zA-Z_0-9\\.]*") && Finds(RULES[REFERENCE].1, s)
  {
  }

  /** A name that starts with a mnemonic is never a label reference. */
  lemma MnemonicFirst(k: nat, s: string)
    requires k < REFERENCE && Lower(RULES[k].1) && RULES[k].1 <= s && Letter(s[0])
    ensures FirstRule(Shipped(), s) <= k
  {
    hide FirstRule, Matches, RuleAt;
    FindsExact(k, s);
    assert Shipped()[k] == RuleAt(k);
  }

  /** `jump` is cut behind its first letter. */
  lemma JumpIsCut()
    ensures RULES[43] == ("unsinsn::J", "j") && FirstRule(Shipped(), "jump") <= 43
  {
    assert Lower("j");
    MnemonicFirst(43, "jump");
  }
}
