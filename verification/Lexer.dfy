/** The tokenizer loop (compilateur/src/lexem.c:86-173) on a file's content. */
module Lexer {
  import opened Options
  import opened Regexp
  import opened Matcher
  import opened Rewriter
  import opened Grammar

  /** A compiled rule of the lexeme file. */
  datatype Rule = Rule(name: string, groups: seq<Group>)

  // ----- lines and columns -----

  function LineOf(content: string, i: nat): nat
    requires i <= |content|
  {
    if i == 0 then 1 else LineOf(content, i - 1) + (if content[i - 1] == '\n' then 1 else 0)
  }

  /** One more than the number of characters since the last newline. */
  function ColumnOf(content: string, i: nat): nat
    requires i <= |content|
  {
    if i == 0 || content[i - 1] == '\n' then 1 else ColumnOf(content, i - 1) + 1
  }

  /** The offsets of the newlines before i. */
  function Newlines(content: string, i: nat): set<nat>
    requires i <= |content|
  {
    set k: nat | k < i && content[k] == '\n'
  }

  lemma {:induction false} LineExact(content: string, i: nat)
    requires i <= |content|
    ensures LineOf(content, i) == 1 + |Newlines(content, i)|
  {
    if i > 0 {
      LineExact(content, i - 1);
      var before := Newlines(content, i - 1);
      assert Newlines(content, i) == if content[i - 1] == '\n' then before + {i - 1} else before;
    }
  }

  /** Between the last newline, or the start, and the offset are as many characters as the column
      says, less one. */
  lemma {:induction false} ColumnExact(content: string, i: nat)
    requires i <= |content|
    ensures 1 <= ColumnOf(content, i) <= i + 1
    ensures var start := i - (ColumnOf(content, i) - 1);
      (start == 0 || content[start - 1] == '\n') && forall k :: start <= k < i ==> content[k] != '\n'
  {
    if i > 0 {
      ColumnExact(content, i - 1);
    }
  }

  // ----- what the lexer should produce -----

  /** What a rule leaves of the input, if it matches there. */
  function Matches(rule: Rule, s: string): Option<string> {
    Reported(Greedy(rule.groups, s))
  }

  /** The first rule, in list order, that matches. */
  function FirstRule(rules: seq<Rule>, s: string): (j: nat)
    ensures j <= |rules|
    ensures forall i :: 0 <= i < j ==> Matches(rules[i], s).None?
    ensures j < |rules| ==> Matches(rules[j], s).Some?
  {
    if rules == [] then 0
    else if Matches(rules[0], s).Some? then 0
    else 1 + FirstRule(rules[1..], s)
  }

  /** The lexemes cover the content from the start to `upto`, without a gap: each is the stretch
      its first matching rule takes, typed by that rule and placed at its offset. */
  predicate Covers(rules: seq<Rule>, content: string, lexems: seq<Lexem>, upto: nat)
    requires upto <= |content|
  {
    if lexems == [] then upto == 0
    else
      var last := lexems[|lexems| - 1];
      var from := upto - |last.value|;
      && 0 <= from < upto && last.value == content[from..upto]
      && (var j := FirstRule(rules, content[from..]);
          j < |rules| && last.kind == rules[j].name && Matches(rules[j], content[from..]) == Some(content[upto..]))
      && last.line == LineOf(content, from) && last.column == ColumnOf(content, from)
      && Covers(rules, content, lexems[..|lexems| - 1], from)
  }

  function Concat(lexems: seq<Lexem>): string {
    if lexems == [] then "" else Concat(lexems[..|lexems| - 1]) + lexems[|lexems| - 1].value
  }

  /** Nothing is lost: the values of the lexemes are the part of the content they cover. */
  lemma {:induction false} Lossless(rules: seq<Rule>, content: string, lexems: seq<Lexem>, upto: nat)
    requires upto <= |content| && Covers(rules, content, lexems, upto)
    ensures Concat(lexems) == content[..upto]
  {
    if lexems != [] {
      var last := lexems[|lexems| - 1];
      var from := upto - |last.value|;
      Lossless(rules, content, lexems[..|lexems| - 1], from);
      assert content[..from] + content[from..upto] == content[..upto];
    }
  }

  // ----- progress -----

  lemma MandatoryMove(gs: seq<Group>, c: char)
    requires gs != [] && Decide(gs, c).Skip?
    ensures Mandatory(Decide(gs, c).gs) == Mandatory(gs)
  {
  }

  /** A run ends within its input, and with a mandatory group a finished run has consumed. */
  lemma {:induction false} Consumes(gs: seq<Group>, s: string)
    ensures var o := Greedy(gs, s);
      o.Done? ==> |o.rest| <= |s| && o.rest == s[|s| - |o.rest|..] && (Mandatory(gs) > 0 ==> |o.rest| < |s|)
    decreases |s| + |gs|
  {
    if gs != [] && s != "" {
      var m := Decide(gs, s[0]);
      if m.Take? {
        Consumes(m.gs, s[1..]);
      } else if m.Skip? {
        MandatoryMove(gs, s[0]);
        Consumes(m.gs, s);
      }
    }
  }

  lemma MatchConsumes(rule: Rule, s: string)
    requires s != "" && Matches(rule, s).Some?
    ensures var rest := Matches(rule, s).value;
      |rest| <= |s| && rest == s[|s| - |rest|..] && (Mandatory(rule.groups) > 0 ==> |rest| < |s|)
  {
    Consumes(rule.groups, s);
  }

  /** A run that finishes at once has passed all groups at the first character. */
  lemma {:induction false} ConsumesNothing(gs: seq<Group>, s: string)
    requires s != ""
    ensures Greedy(gs, s) == Done(s) <==> Mandatory(gs) == 0 && !First(gs, s[0])
    decreases |gs|
  {
    if gs != [] {
      var m := Decide(gs, s[0]);
      if m.Skip? {
        ConsumesNothing(m.gs, s);
      } else if m.Take? {
        Consumes(m.gs, s[1..]);
      }
    }
  }

  /** A rule matches without consuming exactly when it has no mandatory group and the character can
      start none of its words. */
  lemma StandsStill(rule: Rule, s: string)
    requires s != ""
    ensures Matches(rule, s) == Some(s) <==> Mandatory(rule.groups) == 0 && !First(rule.groups, s[0])
  {
    ConsumesNothing(rule.groups, s);
  }

  /** The lexing loop gets to an end from `at`: wherever it comes by, the first matching rule has a
      mandatory group or can start there. */
  predicate Advances(rules: seq<Rule>, content: string, at: nat)
    requires at <= |content|
    decreases |content| - at
  {
    at == |content| ||
    var s := content[at..];
    var j := FirstRule(rules, s);
    j == |rules| || (
      && (Mandatory(rules[j].groups) > 0 || First(rules[j].groups, s[0]))
      && (MatchConsumes(rules[j], s); StandsStill(rules[j], s);
          Advances(rules, content, |content| - |Matches(rules[j], s).value|)))
  }

  /** Every rule has a mandatory group. */
  predicate Productive(rules: seq<Rule>) {
    forall i :: 0 <= i < |rules| ==> Mandatory(rules[i].groups) > 0
  }

  /** Productive rules get to an end on every content. */
  lemma {:induction false} ProductiveAdvances(rules: seq<Rule>, content: string, at: nat)
    requires at <= |content| && Productive(rules)
    ensures Advances(rules, content, at)
    decreases |content| - at
  {
    if at < |content| {
      var s := content[at..];
      var j := FirstRule(rules, s);
      if j < |rules| {
        MatchConsumes(rules[j], s);
        ProductiveAdvances(rules, content, |content| - |Matches(rules[j], s).value|);
      }
    }
  }

  // ----- the lexer -----

  method Positions(content: string) returns (line: array<int>, col: array<int>)
    ensures line.Length == col.Length == |content| && fresh(line) && fresh(col)
    ensures forall i :: 0 <= i < |content| ==> line[i] == LineOf(content, i) && col[i] == ColumnOf(content, i)
  {
    line := new int[|content|];
    col := new int[|content|];
    var currLine, currCol := 1, 1;
    for i := 0 to |content|
      invariant currLine == LineOf(content, i) && currCol == ColumnOf(content, i)
      invariant forall k :: 0 <= k < i ==> line[k] == LineOf(content, k) && col[k] == ColumnOf(content, k)
    {
      line[i], col[i] := currLine, currCol;
      if content[i] == '\n' {
        currCol := 1;
        currLine := currLine + 1;
      } else {
        currCol := currCol + 1;
      }
    }
  }

  /** The inner loop: the first rule that matches the source, and what it leaves. */
  method TryRules(rules: seq<Rule>, source: string) returns (l: nat, next: string)
    requires source != "" ==> forall i :: 0 <= i < |rules| ==> rules[i].groups != []
    ensures l == FirstRule(rules, source)
    ensures l < |rules| ==> Matches(rules[l], source) == Some(next)
  {
    l := 0;
    next := "";
    while l < |rules|
      invariant l <= |rules| && FirstRule(rules, source) == l + FirstRule(rules[l..], source)
    {
      assert rules[l..][1..] == rules[l + 1..] && rules[l..][0] == rules[l];
      var matched;
      matched, next := ReMatch(rules[l].groups, source);
      if matched { return; }
      l := l + 1;
    }
  }

  lemma CoversNothing(rules: seq<Rule>, content: string)
    ensures Covers(rules, content, [], 0)
  {
  }

  lemma CoversMore(rules: seq<Rule>, content: string, lexems: seq<Lexem>, at: nat, lexem: Lexem, length: nat)
    requires at + length <= |content| && Covers(rules, content, lexems, at) && length > 0
    requires var j := FirstRule(rules, content[at..]);
      j < |rules| && lexem.kind == rules[j].name && Matches(rules[j], content[at..]) == Some(content[at..][length..])
    requires lexem.value == content[at..][..length]
    requires lexem.line == LineOf(content, at) && lexem.column == ColumnOf(content, at)
    ensures Covers(rules, content, lexems + [lexem], at + length)
  {
    hide FirstRule, Matches;
    assert content[at..][length..] == content[at + length..] && content[at..][..length] == content[at..at + length];
    assert (lexems + [lexem])[..|lexems|] == lexems;
  }

  /** lexem_read. It succeeds exactly when it has covered the whole content; where it stops
      earlier, no rule matches the rest. Where the loop does not advance it never ends (StaysThere). */
  method LexemRead(rules: seq<Rule>, content: string) returns (ok: bool, lexems: seq<Lexem>, upto: nat)
    requires forall i :: 0 <= i < |rules| ==> rules[i].groups != []
    requires Advances(rules, content, 0)
    ensures upto <= |content| && Covers(rules, content, lexems, upto)
    ensures ok <==> upto == |content|
    ensures !ok ==> FirstRule(rules, content[upto..]) == |rules|
  {
    hide Covers, FirstRule, Matches, Advances;
    var line, col := Positions(content);
    CoversNothing(rules, content);
    lexems := [];
    var at := 0;
    while at < |content|
      invariant at <= |content| && Covers(rules, content, lexems, at) && Advances(rules, content, at)
      modifies {}
    {
      var source := content[at..];
      var l, next := TryRules(rules, source);
      if l == |rules| {
        return false, lexems, at;
      }
      AdvanceOn(rules, content, at);
      var length := |source| - |next|;
      var lexem := Lexem(rules[l].name, source[..length], line[at], col[at]);
      CoversMore(rules, content, lexems, at, lexem, length);
      lexems := lexems + [lexem];
      at := at + length;
    }
    return true, lexems, at;
  }

  /** On any other content the loop comes to a place where it takes nothing, and stays there. */
  lemma {:induction false} StaysThere(rules: seq<Rule>, content: string, at: nat, lexems: seq<Lexem>)
    returns (stuck: nat, more: seq<Lexem>)
    requires at <= |content| && Covers(rules, content, lexems, at) && !Advances(rules, content, at)
    ensures stuck < |content| && Covers(rules, content, more, stuck)
    ensures var s := content[stuck..];
      FirstRule(rules, s) < |rules| && Matches(rules[FirstRule(rules, s)], s) == Some(s)
    decreases |content| - at
  {
    hide Covers, Matches, FirstRule;
    var s := content[at..];
    var rule := rules[FirstRule(rules, s)];
    StandsStill(rule, s);
    MatchConsumes(rule, s);
    if Matches(rule, s) == Some(s) {
      stuck, more := at, lexems;
    } else {
      var length := |s| - |Matches(rule, s).value|;
      var lexem := Lexem(rule.name, s[..length], LineOf(content, at), ColumnOf(content, at));
      CoversMore(rules, content, lexems, at, lexem, length);
      stuck, more := StaysThere(rules, content, at + length, lexems + [lexem]);
    }
  }

  lemma AdvanceOn(rules: seq<Rule>, content: string, at: nat)
    requires at < |content| && Advances(rules, content, at) && FirstRule(rules, content[at..]) < |rules|
    ensures var s := content[at..]; var rest := Matches(rules[FirstRule(rules, s)], s).value;
      |rest| < |s| && rest == s[|s| - |rest|..] && Advances(rules, content, |content| - |rest|)
  {
    var s := content[at..];
    MatchConsumes(rules[FirstRule(rules, s)], s);
    StandsStill(rules[FirstRule(rules, s)], s);
  }

  /** Compiling rules through the rewriter keeps them productive. */
  lemma RewrittenProductive(gs: seq<Group>)
    ensures Mandatory(OptiAll(gs)) == Mandatory(gs)
  {
    if gs != [] {
      MandatoryKept(gs[0], gs[1..]);
      assert [gs[0]] + gs[1..] == gs;
    }
  }
}
