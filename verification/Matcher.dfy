/** Greedy matching without backtracking (compilateur/src/regexp.c:329-400). */
module Matcher {
  import opened Options
  import opened Regexp
  import opened Rewriter

  // ----- the outcome of a run -----

  /** Done: all groups are passed and `rest` is left. Bad: a character cannot be matched.
      OutOfInput: the input ended with the groups `pending`; a `+` that has consumed its first
      character is pending as `*`. */
  datatype Outcome = Done(rest: string) | Bad | OutOfInput(pending: seq<Group>)

  /** One decision: consume the character or not, and the groups that are then pending. */
  datatype Move = Fail | Take(gs: seq<Group>) | Skip(gs: seq<Group>)

  function Decide(gs: seq<Group>, c: char): Move
    requires gs != []
  {
    var hit := gs[0].In(c);
    match gs[0].op
    case NOP => if hit then Take(gs[1..]) else Fail
    case ZOM => if hit then Take(gs) else Skip(gs[1..])
    case OOM => if hit then Take(With(gs, ZOM)) else Fail
    case ZOO => if hit then Take(gs[1..]) else Skip(gs[1..])
  }

  function Greedy(gs: seq<Group>, s: string): Outcome
    decreases |s| + |gs|
  {
    if gs == [] then Done(s)
    else if s == "" then OutOfInput(gs)
    else match Decide(gs, s[0])
      case Fail => Bad
      case Take(hs) => Greedy(hs, s[1..])
      case Skip(hs) => Greedy(hs, s)
  }

  /** What re_match reports: the unconsumed rest, or no match. At the end of the input it accepts
      a single pending closure, started or not. */
  function Reported(o: Outcome): Option<string> {
    match o
    case Done(rest) => Some(rest)
    case Bad => None
    case OutOfInput(p) => if |p| == 1 && p[0].op in {ZOM, OOM} then Some("") else None
  }

  // ----- the matcher -----

  /** The groups from l on, with the memory of a `+` that has seen its first character. */
  function Pending(gs: seq<Group>, l: nat, firstChar: bool): seq<Group>
    requires l <= |gs| && (firstChar ==> l < |gs|)
  {
    if firstChar then With(gs[l..], ZOM) else gs[l..]
  }

  /** re_match. With input left and no group the source's first `list_first` aborts. */
  method ReMatch(gs: seq<Group>, source: string) returns (r: bool, end: string)
    requires gs != [] || source == ""
    ensures Reported(Greedy(gs, source)) == if r then Some(end) else None
  {
    var c, l := 0, 0;
    var expOk, firstChar := true, false;
    end := "";
    while expOk && c < |source|
      invariant c <= |source| && l <= |gs| && (l < |gs| || gs == []) && (firstChar ==> l < |gs| && gs[l].op == OOM)
      invariant Greedy(gs, source) == if expOk then Greedy(Pending(gs, l, firstChar), source[c..]) else Bad
      decreases expOk, |source| - c + |gs| - l
    {
      var isIn := CharGroupIn(gs[l], source[c]);
      ghost var move := Decide(Pending(gs, l, firstChar), source[c]);
      assert gs[l..][1..] == gs[l + 1..] && source[c..][1..] == source[c + 1..];
      match gs[l].op {
        case NOP =>
          if !isIn { expOk := false; } else { c := c + 1; l := l + 1; }
        case ZOM =>
          if isIn { c := c + 1; } else { l := l + 1; }
        case OOM =>
          if isIn {
            firstChar := true;
            c := c + 1;
          } else if firstChar {
            l := l + 1;
            firstChar := false;
          } else {
            expOk := false;
          }
        case ZOO =>
          if isIn { c := c + 1; }
          l := l + 1;
      }
      if l == |gs| {
        return true, source[c..];
      }
    }
    // The input is exhausted, or the last character was bad.
    if l < |gs| && !(l + 1 == |gs| && gs[l].op in {ZOM, OOM}) {
      return false, end;
    } else if expOk {
      return true, source[c..];
    } else {
      return false, end;
    }
  }

  // ----- soundness -----

  /** A decision never gains words. */
  lemma DecideSound(gs: seq<Group>, w: string)
    requires gs != [] && w != ""
    ensures var m := Decide(gs, w[0]);
      && (m.Take? && Lang(m.gs, w[1..]) ==> Lang(gs, w))
      && (m.Skip? && Lang(m.gs, w) ==> Lang(gs, w))
  {
    match gs[0].op {
      case NOP => LangOnce(gs, w);
      case ZOM => LangMany(gs, w);
      case OOM => LangSome(gs, w);
      case ZOO => LangOpt(gs, w);
    }
  }

  /** What a finished run has consumed is in the language; what would complete an unfinished run
      completes the input to a word. */
  lemma {:induction false} GreedySound(gs: seq<Group>, s: string, u: string)
    ensures var o := Greedy(gs, s);
      && (o.Done? ==> |o.rest| <= |s| && s == s[..|s| - |o.rest|] + o.rest && Lang(gs, s[..|s| - |o.rest|]))
      && (o.OutOfInput? ==> o.pending != [] && (Lang(o.pending, u) ==> Lang(gs, s + u)))
    decreases |s| + |gs|
  {
    hide Lang;
    if gs == [] {
      assert Lang(gs, "") by { EmptyWord(gs); }
      assert s[..0] == "";
    } else if s == "" {
      assert s + u == u;
    } else {
      var move := Decide(gs, s[0]);
      if move.Take? {
        GreedySound(move.gs, s[1..], u);
        TakeSound(gs, s, u);
      } else if move.Skip? {
        GreedySound(move.gs, s, u);
        SkipSound(gs, move.gs, s, u);
      }
    }
  }

  lemma TakeSound(gs: seq<Group>, s: string, u: string)
    requires gs != [] && s != "" && Decide(gs, s[0]).Take?
    ensures forall k {:trigger s[..k]} ::
      1 <= k <= |s| && Lang(Decide(gs, s[0]).gs, s[1..][..k - 1]) ==> Lang(gs, s[..k])
    ensures Lang(Decide(gs, s[0]).gs, s[1..] + u) ==> Lang(gs, s + u)
    ensures forall k {:trigger s[1..][..k]} :: 0 <= k < |s| ==> s[..k + 1] + s[1..][k..] == s
  {
    hide Lang;
    var hs := Decide(gs, s[0]).gs;
    forall k | 1 <= k <= |s| && Lang(hs, s[1..][..k - 1]) ensures Lang(gs, s[..k]) {
      assert s[..k][1..] == s[1..][..k - 1];
      DecideSound(gs, s[..k]);
    }
    assert (s + u)[1..] == s[1..] + u;
    DecideSound(gs, s + u);
  }

  lemma SkipSound(gs: seq<Group>, hs: seq<Group>, s: string, u: string)
    requires gs != [] && s != "" && Decide(gs, s[0]) == Skip(hs)
    ensures forall k :: 0 <= k <= |s| && Lang(hs, s[..k]) ==> Lang(gs, s[..k])
    ensures Lang(hs, s + u) ==> Lang(gs, s + u)
  {
    forall k | 0 <= k <= |s| && Lang(hs, s[..k]) ensures Lang(gs, s[..k]) {
      if k == 0 {
        EmptyWord(hs);
        EmptyWord(gs);
      } else {
        DecideSound(gs, s[..k]);
      }
    }
    assert (s + u)[0] == s[0];
    DecideSound(gs, s + u);
  }

  /** Whenever re_match reports a match, the consumed prefix is in the language, unless the input
      ended in front of a final `+` that has consumed nothing. */
  lemma MatchSound(gs: seq<Group>, s: string)
    requires Reported(Greedy(gs, s)).Some?
    requires Greedy(gs, s).OutOfInput? ==> Greedy(gs, s).pending[0].op != OOM
    ensures var rest := Reported(Greedy(gs, s)).value;
      |rest| <= |s| && s == s[..|s| - |rest|] + rest && Lang(gs, s[..|s| - |rest|])
  {
    GreedySound(gs, s, "");
    var o := Greedy(gs, s);
    if o.OutOfInput? {
      EmptyWord(o.pending);
      assert s + "" == s && s[..|s|] == s;
    }
  }

  // ----- exactness under determinism -----

  /** With disjoint followers a decision loses no words either. */
  lemma DecideExact(gs: seq<Group>, w: string)
    requires gs != [] && w != "" && Deterministic(gs)
    ensures var m := Decide(gs, w[0]);
      && (m.Fail? ==> !Lang(gs, w))
      && (!m.Fail? ==> Deterministic(m.gs))
      && (m.Take? ==> (Lang(m.gs, w[1..]) <==> Lang(gs, w)))
      && (m.Skip? ==> (Lang(m.gs, w) <==> Lang(gs, w)))
  {
    if gs[0].op != NOP && gs[0].In(w[0]) && Lang(gs[1..], w) {
      FirstOfWord(gs[1..], w);
    }
    match gs[0].op {
      case NOP => LangOnce(gs, w);
      case ZOM => LangMany(gs, w);
      case OOM => LangSome(gs, w); SameApart(gs);
      case ZOO => LangOpt(gs, w);
    }
  }

  lemma SameApart(gs: seq<Group>)
    requires gs != [] && gs[0].op == OOM && Deterministic(gs)
    ensures Deterministic(With(gs, ZOM))
  {
    assert With(gs, ZOM)[1..] == gs[1..];
    assert forall c :: With(gs, ZOM)[0].In(c) <==> gs[0].In(c);
  }

  lemma DecideNullable(gs: seq<Group>, c: char)
    requires gs != [] && Nullable(gs)
    ensures !Decide(gs, c).Fail? && Nullable(Decide(gs, c).gs)
  {
    assert gs[0].op.Allows(0);
  }

  /** What the outcome of a run says about the prefix of length k. */
  ghost predicate PrefixAgrees(gs: seq<Group>, s: string, k: nat)
    requires k <= |s|
  {
    match Greedy(gs, s)
    case Done(rest) => Lang(gs, s[..k]) ==> k <= |s| - |rest|
    case Bad => !Lang(gs, s[..k])
    case OutOfInput(p) => (Lang(gs, s[..k]) ==> Nullable(p)) && (Nullable(p) ==> Lang(gs, s))
  }

  /** A run against every prefix of the input. */
  lemma {:induction false} GreedyExact(gs: seq<Group>, s: string, k: nat)
    requires Deterministic(gs) && k <= |s|
    ensures PrefixAgrees(gs, s, k)
    decreases |s| + |gs|
  {
    hide Lang;
    EmptyWord(gs);
    if gs == [] {
      if Lang(gs, s[..k]) {
        OnlyEmpty(s[..k]);
      }
    } else if s == "" {
      assert s[..k] == "";
    } else {
      if Nullable(gs) {
        DecideNullable(gs, s[0]);
      }
      DecideExact(gs, s);
      if k > 0 {
        DecideExact(gs, s[..k]);
      } else {
        assert s[..k] == "";
      }
      match Decide(gs, s[0])
      case Fail =>
      case Take(hs) =>
        EmptyWord(hs);
        var j := if k > 0 then k - 1 else 0;
        assert k > 0 ==> s[..k][1..] == s[1..][..j];
        assert s[1..][..0] == "";
        GreedyExact(hs, s[1..], j);
      case Skip(hs) =>
        EmptyWord(hs);
        GreedyExact(hs, s, k);
    }
  }

  lemma OnlyEmpty(w: string)
    requires Lang([], w)
    ensures w == ""
  {
  }

  /** The longest prefix of the input in the language. */
  ghost predicate Longest(gs: seq<Group>, s: string, k: nat) {
    k <= |s| && Lang(gs, s[..k]) && forall j :: k < j <= |s| ==> !Lang(gs, s[..j])
  }

  ghost predicate NoPrefix(gs: seq<Group>, s: string) {
    forall j :: 0 <= j <= |s| ==> !Lang(gs, s[..j])
  }

  /** On a deterministic list the outcome tells exactly which prefixes are words. */
  lemma OutcomeExact(gs: seq<Group>, s: string)
    requires Deterministic(gs)
    ensures var o := Greedy(gs, s);
      && (o.Done? ==> |o.rest| <= |s| && o.rest == s[|s| - |o.rest|..] && Longest(gs, s, |s| - |o.rest|))
      && (o.Bad? ==> NoPrefix(gs, s))
      && (o.OutOfInput? ==> o.pending != [] && if Nullable(o.pending) then Longest(gs, s, |s|) else NoPrefix(gs, s))
  {
    hide Lang;
    GreedySound(gs, s, "");
    assert s[..|s|] == s;
    var o := Greedy(gs, s);
    forall j | 0 <= j <= |s|
      ensures o.Done? && Lang(gs, s[..j]) ==> j <= |s| - |o.rest|
      ensures o.Bad? ==> !Lang(gs, s[..j])
      ensures o.OutOfInput? ==> (Lang(gs, s[..j]) ==> Nullable(o.pending)) && (Nullable(o.pending) ==> Lang(gs, s))
    {
      GreedyExact(gs, s, j);
    }
  }

  /** A longest match that leaves some input is found, and nothing else is reported for it. */
  lemma LongestFound(gs: seq<Group>, s: string, k: nat)
    requires Deterministic(gs) && Longest(gs, s, k) && k < |s|
    ensures Reported(Greedy(gs, s)) == Some(s[k..])
  {
    hide Lang;
    OutcomeExact(gs, s);
    assert !Longest(gs, s, |s|) && !NoPrefix(gs, s);
    var o := Greedy(gs, s);
    if o.Done? {
      assert !(k < |s| - |o.rest|) && !(|s| - |o.rest| < k);
    }
  }

  // ----- the end of the input, for deterministic lists -----

  /** The groups up to group i, which must then match with another operator. */
  function Cut(gs: seq<Group>, i: nat, op: Operator): (r: seq<Group>)
    requires i < |gs|
    ensures |r| == i + 1
  {
    gs[..i] + [gs[i].(op := op)]
  }

  /** The last group takes the last character. */
  ghost predicate LastConsumes(gs: seq<Group>, s: string)
    requires gs != []
  {
    var last := |gs| - 1;
    s != "" && Lang(Cut(gs, last, if gs[last].op in {ZOM, OOM} then OOM else NOP), s)
  }

  /** The run gets to the last group just when the input ends: the input is empty and there is no
      other group, or a plain or optional group right before the last takes the last character. */
  ghost predicate ArrivesAtEnd(gs: seq<Group>, s: string)
    requires gs != []
  {
    if s == "" then |gs| == 1
    else |gs| >= 2 && gs[|gs| - 2].op in {NOP, ZOO} && Lang(Cut(gs, |gs| - 2, NOP), s)
  }

  /** When the matcher takes the whole input. */
  ghost predicate TakesAll(gs: seq<Group>, s: string)
    requires gs != []
  {
    LastConsumes(gs, s) || (gs[|gs| - 1].op in {ZOM, OOM} && ArrivesAtEnd(gs, s))
  }

  lemma {:induction false} FirstCut(gs: seq<Group>, i: nat, op: Operator, c: char)
    requires i < |gs| && op in {NOP, OOM} && First(Cut(gs, i, op), c)
    ensures First(gs, c)
    decreases i
  {
    if i > 0 && !gs[0].In(c) {
      CutRest(gs, i, op);
      FirstCut(gs[1..], i - 1, op, c);
    }
  }

  lemma CutRest(gs: seq<Group>, i: nat, op: Operator)
    requires 0 < i < |gs|
    ensures Cut(gs, i, op)[1..] == Cut(gs[1..], i - 1, op) && Cut(gs, i, op)[0] == gs[0]
  {
  }

  lemma {:induction false} CutDeterministic(gs: seq<Group>, i: nat, op: Operator)
    requires i < |gs| && Deterministic(gs) && (op == NOP || (op == OOM && i == |gs| - 1))
    ensures Deterministic(Cut(gs, i, op))
    decreases i
  {
    var cut := Cut(gs, i, op);
    if i == 0 {
      assert cut[1..] == [];
    } else {
      CutRest(gs, i, op);
      CutDeterministic(gs[1..], i - 1, op);
      forall c | First(cut[1..], c) ensures First(gs[1..], c) {
        FirstCut(gs[1..], i - 1, op, c);
      }
    }
  }

  lemma CutNotEmpty(gs: seq<Group>, i: nat, op: Operator)
    requires i < |gs| && op in {NOP, OOM}
    ensures !Lang(Cut(gs, i, op), "")
  {
    EmptyWord(Cut(gs, i, op));
    assert Cut(gs, i, op)[i].op == op;
  }

  /** Before group i is reached, a decision on the cut list is the decision on the list. */
  lemma CutMove(gs: seq<Group>, i: nat, op: Operator, c: char)
    requires 0 < i < |gs|
    ensures var m, n := Decide(gs, c), Decide(Cut(gs, i, op), c);
      && m.Fail? == n.Fail? && m.Take? == n.Take?
      && (!m.Fail? ==> m.gs != [] && |m.gs| <= |gs| <= |m.gs| + i && n.gs == Cut(m.gs, i - (|gs| - |m.gs|), op))
  {
    CutRest(gs, i, op);
    assert gs[0].op == OOM ==> With(Cut(gs, i, op), ZOM) == Cut(With(gs, ZOM), i, op);
  }

  lemma CutDecide(gs: seq<Group>, i: nat, op: Operator, s: string)
    requires 0 < i < |gs| && s != "" && Deterministic(gs) && (op == NOP || (op == OOM && i == |gs| - 1))
    ensures var m := Decide(gs, s[0]);
      && (m.Fail? ==> !Lang(Cut(gs, i, op), s))
      && (!m.Fail? ==> m.gs != [] && |m.gs| <= |gs| <= |m.gs| + i)
      && (m.Take? ==> (Lang(Cut(gs, i, op), s) <==> Lang(Cut(m.gs, i - (|gs| - |m.gs|), op), s[1..])))
      && (m.Skip? ==> (Lang(Cut(gs, i, op), s) <==> Lang(Cut(m.gs, i - (|gs| - |m.gs|), op), s)))
  {
    hide Lang, Decide, Deterministic, Cut;
    CutDeterministic(gs, i, op);
    CutMove(gs, i, op, s[0]);
    DecideExact(Cut(gs, i, op), s);
  }

  lemma LastConsumesStep(gs: seq<Group>, s: string)
    requires |gs| >= 2 && s != "" && Deterministic(gs)
    ensures var m := Decide(gs, s[0]);
      && (m.Fail? ==> !LastConsumes(gs, s))
      && (!m.Fail? ==> m.gs != [] && m.gs[|m.gs| - 1] == gs[|gs| - 1])
      && (m.Take? ==> (LastConsumes(gs, s) <==> LastConsumes(m.gs, s[1..])))
      && (m.Skip? ==> (LastConsumes(gs, s) <==> LastConsumes(m.gs, s)))
  {
    hide Lang, Cut;
    var last := |gs| - 1;
    var op := if gs[last].op in {ZOM, OOM} then OOM else NOP;
    CutDecide(gs, last, op, s);
    var m := Decide(gs, s[0]);
    if m.Take? {
      CutNotEmpty(m.gs, |m.gs| - 1, op);
      assert m.gs[|m.gs| - 1] == gs[last];
      assert s[1..] == "" ==> !Lang(Cut(m.gs, |m.gs| - 1, op), s[1..]);
    }
  }

  lemma ArrivesStep(gs: seq<Group>, s: string)
    requires |gs| >= 2 && s != "" && Deterministic(gs)
    ensures var m := Decide(gs, s[0]);
      && (m.Fail? ==> !ArrivesAtEnd(gs, s))
      && (!m.Fail? ==> m.gs != [])
      && (m.Take? ==> (ArrivesAtEnd(gs, s) <==> ArrivesAtEnd(m.gs, s[1..])))
      && (m.Skip? ==> (ArrivesAtEnd(gs, s) <==> ArrivesAtEnd(m.gs, s)))
  {
    hide *;
    if |gs| == 2 {
      ArrivesTwo(gs, s);
    } else {
      ArrivesMore(gs, s);
    }
  }

  lemma ArrivesTwo(gs: seq<Group>, s: string)
    requires |gs| == 2 && s != ""
    ensures var m := Decide(gs, s[0]);
      && (m.Fail? ==> !ArrivesAtEnd(gs, s))
      && (!m.Fail? ==> m.gs != [])
      && (m.Take? ==> (ArrivesAtEnd(gs, s) <==> ArrivesAtEnd(m.gs, s[1..])))
      && (m.Skip? ==> (ArrivesAtEnd(gs, s) <==> ArrivesAtEnd(m.gs, s)))
  {
    hide Lang, Cut;
    OneCharacter(gs, s);
  }

  lemma ArrivesMore(gs: seq<Group>, s: string)
    requires |gs| > 2 && s != "" && Deterministic(gs)
    ensures var m := Decide(gs, s[0]);
      && (m.Fail? ==> !ArrivesAtEnd(gs, s))
      && (!m.Fail? ==> m.gs != [])
      && (m.Take? ==> (ArrivesAtEnd(gs, s) <==> ArrivesAtEnd(m.gs, s[1..])))
      && (m.Skip? ==> (ArrivesAtEnd(gs, s) <==> ArrivesAtEnd(m.gs, s)))
  {
    hide Lang, Cut, Deterministic;
    CutDecide(gs, |gs| - 2, NOP, s);
    var m := Decide(gs, s[0]);
    if m.Take? {
      CutNotEmpty(m.gs, |m.gs| - 2, NOP);
    }
  }

  /** The words of one plain group. */
  lemma OneCharacter(gs: seq<Group>, s: string)
    requires gs != [] && s != ""
    ensures Lang(Cut(gs, 0, NOP), s) <==> gs[0].In(s[0]) && s[1..] == ""
  {
    LangOnce(Cut(gs, 0, NOP), s);
    assert Cut(gs, 0, NOP)[1..] == [];
  }

  /** A single group. */
  lemma {:induction false} TakesAllOne(g: Group, s: string)
    ensures Reported(Greedy([g], s)) == Some("") <==> TakesAll([g], s)
    decreases |s|, if g.op == OOM then 1 else 0
  {
    hide Lang;
    var gs := [g];
    if s != "" {
      assert gs[1..] == [];
      assert Greedy([], s) == Done(s) && Greedy([], s[1..]) == Done(s[1..]);
      if g.op in {NOP, ZOO} {
        OneCharacter(gs, s);
      } else {
        var star, plus := g.(op := ZOM), Cut(gs, 0, OOM);
        assert plus == [g.(op := OOM)] && With(plus, ZOM) == [star] && With(gs, ZOM) == [star];
        LangSome(plus, s);
        if g.In(s[0]) {
          StarWord(star, s[1..]);
          TakesAllOne(star, s[1..]);
        }
      }
    }
  }

  lemma StarWord(g: Group, s: string)
    requires g.op == ZOM
    ensures Lang([g], s) <==> TakesAll([g], s)
  {
    hide Lang;
    var gs, plus := [g], [g.(op := OOM)];
    assert Cut(gs, 0, OOM) == plus && With(plus, ZOM) == gs && gs[1..] == [];
    EmptyWord(gs);
    if s != "" {
      LangMany(gs, s);
      LangSome(plus, s);
      if Lang([], s) { OnlyEmpty(s); }
    }
  }

  /** On a deterministic list the whole input is reported as matched exactly when the last group
      takes the last character, or is a closure that the run gets to just when the input ends. */
  lemma {:induction false} TakesAllExact(gs: seq<Group>, s: string)
    requires Deterministic(gs) && gs != []
    ensures Reported(Greedy(gs, s)) == Some("") <==> TakesAll(gs, s)
    decreases |s| + |gs|
  {
    hide Lang, LastConsumes, ArrivesAtEnd;
    if s == "" {
      NoInput(gs);
    } else if |gs| == 1 {
      assert gs == [gs[0]];
      TakesAllOne(gs[0], s);
    } else {
      DecideExact(gs, s);
      LastConsumesStep(gs, s);
      ArrivesStep(gs, s);
      match Decide(gs, s[0])
      case Fail =>
      case Take(hs) => TakesAllExact(hs, s[1..]);
      case Skip(hs) => TakesAllExact(hs, s);
    }
  }

  lemma NoInput(gs: seq<Group>)
    requires gs != []
    ensures Reported(Greedy(gs, "")) == Some("") <==> TakesAll(gs, "")
  {
  }

  /** Everything the matcher reports on a deterministic list, by groups and input alone: a proper
      prefix exactly when it is the longest word, the whole input exactly when `TakesAll`. */
  lemma ReportedExact(gs: seq<Group>, s: string, k: nat)
    requires Deterministic(gs) && gs != [] && k <= |s|
    ensures Reported(Greedy(gs, s)) == Some(s[k..]) <==> if k < |s| then Longest(gs, s, k) else TakesAll(gs, s)
  {
    hide Lang, TakesAll;
    if k == |s| {
      TakesAllExact(gs, s);
    } else {
      if Longest(gs, s, k) {
        LongestFound(gs, s, k);
      }
      if Reported(Greedy(gs, s)) == Some(s[k..]) {
        OutcomeExact(gs, s);
      }
    }
  }

  /** A last group that takes the last character, and a last `*` that takes nothing, make a word. */
  lemma TakenIsWord(gs: seq<Group>, s: string)
    requires gs != [] && TakesAll(gs, s) && (gs[|gs| - 1].op == OOM ==> LastConsumes(gs, s))
    ensures Lang(gs, s)
    decreases |gs|
  {
    var last := |gs| - 1;
    if LastConsumes(gs, s) {
      CutWord(gs, last, if gs[last].op in {ZOM, OOM} then OOM else NOP, s);
    } else if s == "" {
      EmptyWord(gs);
    } else {
      CutWord(gs, last - 1, NOP, s);
    }
  }

  /** A word of the cut list is one of the list, when group i allows at least what the cut does and
      the groups behind it can be skipped. */
  lemma {:induction false} CutWord(gs: seq<Group>, i: nat, op: Operator, w: string)
    requires i < |gs| && Nullable(gs[i + 1..]) && Lang(Cut(gs, i, op), w)
    requires (op == NOP && gs[i].op in {NOP, ZOO}) || (op == OOM && gs[i].op in {ZOM, OOM})
    ensures Lang(gs, w)
    decreases i
  {
    var cut := Cut(gs, i, op);
    var k := HasRun(cut, w);
    if i == 0 {
      assert cut[1..] == [];
      assert w[k..] == "";
      EmptyWord(gs[1..]);
    } else {
      CutRest(gs, i, op);
      assert gs[1..][i..] == gs[i + 1..];
      CutWord(gs[1..], i - 1, op, w[k..]);
    }
    assert RunOf(gs, w, k);
    RunIsWord(gs, w, k);
  }

  /** Without a matching prefix something is reported exactly when a final `+` is reached just when
      the input ends. */
  lemma NothingFound(gs: seq<Group>, s: string)
    requires Deterministic(gs) && gs != [] && NoPrefix(gs, s)
    ensures Reported(Greedy(gs, s)).Some? <==> gs[|gs| - 1].op == OOM && ArrivesAtEnd(gs, s)
  {
    hide Lang, ArrivesAtEnd, LastConsumes;
    OutcomeExact(gs, s);
    TakesAllExact(gs, s);
    assert s[..|s|] == s;
    if TakesAll(gs, s) && (gs[|gs| - 1].op == OOM ==> LastConsumes(gs, s)) {
      TakenIsWord(gs, s);
    }
  }

  /** A word that is the whole input is reported exactly when its last character is taken by the last
      group, or by a plain or optional group right before a final `*`. */
  lemma WholeInput(gs: seq<Group>, s: string)
    requires Deterministic(gs) && gs != [] && Lang(gs, s)
    ensures Reported(Greedy(gs, s)) == Some("") <==>
            LastConsumes(gs, s) || (gs[|gs| - 1].op == ZOM && ArrivesAtEnd(gs, s))
    ensures Reported(Greedy(gs, s)) in {None, Some("")}
  {
    hide Lang, ArrivesAtEnd, LastConsumes;
    OutcomeExact(gs, s);
    assert s[..|s|] == s;
    TakesAllExact(gs, s);
    match Greedy(gs, s) {
      case Done(rest) =>
        assert !(|s| - |rest| < |s|);
      case Bad =>
      case OutOfInput(p) =>
        assert p[0].op.Allows(0);
    }
    if gs[|gs| - 1].op == OOM && ArrivesAtEnd(gs, s) && !LastConsumes(gs, s) {
      LastPlus(gs, s);
    }
  }

  /** With a final `+` every word ends with a character of that group. */
  lemma LastPlus(gs: seq<Group>, s: string)
    requires gs != [] && gs[|gs| - 1].op == OOM && Lang(gs, s)
    ensures LastConsumes(gs, s)
  {
    assert gs[|gs| - 1].(op := OOM) == gs[|gs| - 1];
    assert Cut(gs, |gs| - 1, OOM) == gs;
    EmptyWord(gs);
    assert !gs[|gs| - 1].op.Allows(0);
  }

  // ----- with the rewriter -----

  /** Rewrite, then match: on a tame list the longest word of the original list that leaves some
      input is what is reported. */
  lemma RewrittenFindsLongest(gs: seq<Group>, s: string, k: nat)
    requires Tame(gs) && Longest(gs, s, k) && k < |s|
    ensures Reported(Greedy(OptiAll(gs), s)) == Some(s[k..])
  {
    hide Lang;
    TameExact(gs);
    forall j | 0 <= j <= |s| ensures Lang(OptiAll(gs), s[..j]) <==> Lang(gs, s[..j]) {
      LanguageKept(gs, s[..j]);
    }
    LongestFound(OptiAll(gs), s, k);
  }

  // ----- the end of the input, concretely -----

  function Only(c: char): CharSet
    requires c as int < 128
  {
    seq(256, i => i == c as int)
  }

  /** `ab+` is reported to match all of "a", though no prefix of "a" is a word. */
  lemma FalseMatch()
    ensures var gs := [Group(Only('a'), NOP), Group(Only('b'), OOM)];
      Reported(Greedy(gs, "a")) == Some("") && NoPrefix(gs, "a")
  {
    var gs := [Group(Only('a'), NOP), Group(Only('b'), OOM)];
    assert Decide(gs, 'a') == Take(gs[1..]);
    assert Greedy(gs[1..], "a"[1..]) == OutOfInput(gs[1..]);
    assert Apart(gs[1], []);
    assert gs[1..][1..] == [];
    assert Deterministic(gs[1..]) && Deterministic(gs);
    OutcomeExact(gs, "a");
    assert !gs[1..][0].op.Allows(0);
  }

  /** `a*b*` is not reported to match "a", though "a" is a word. */
  lemma MissedMatch()
    ensures var gs := [Group(Only('a'), ZOM), Group(Only('b'), ZOM)];
      Reported(Greedy(gs, "a")) == None && Lang(gs, "a")
  {
    var gs := [Group(Only('a'), ZOM), Group(Only('b'), ZOM)];
    assert Decide(gs, 'a') == Take(gs);
    assert Greedy(gs, "a") == Greedy(gs, "a"[1..]) == OutOfInput(gs);
    EmptyWord(gs);
    LangMany(gs, "a");
  }
}
