/** Compiling a pattern text into groups (compilateur/src/regexp.c:79-193,
    compilateur/src/char_group.c:15-147). Characters are below 128, as higher ones index outside the
    array, and no interval ends at 127, as it would never stop being filled. */
module Patterns {
  import opened Options
  import opened Regexp
  import opened Lists
  import opened Rewriter

  /** The character at k ends an interval, escaped or not. */
  predicate EndsInterval(s: string, k: nat)
    requires k < |s|
  {
    (k >= 1 && s[k - 1] == '-') || (k >= 2 && s[k - 1] == '\\' && s[k - 2] == '-')
  }

  predicate Scannable(s: string) {
    forall k :: 0 <= k < |s| ==> s[k] as int < 128 && (s[k] as int == 127 ==> !EndsInterval(s, k))
  }

  lemma ScannablePart(s: string, i: nat, j: nat)
    requires i <= j <= |s| && Scannable(s)
    ensures Scannable(s[i..j])
  {
    forall k | 0 <= k < j - i
      ensures s[i..j][k] as int < 128 && (s[i..j][k] as int == 127 ==> !EndsInterval(s[i..j], k))
    {
      assert s[i..j][k] == s[i + k];
      assert EndsInterval(s[i..j], k) ==> EndsInterval(s, i + k);
    }
  }

  /** What a character means behind a backslash, inside and outside classes. */
  function Unescape(c: char): char {
    match c
    case 'n' => '\n'
    case 't' => '\t'
    case _ => c
  }

  function Drop(s: string, n: nat): string {
    if n <= |s| then s[n..] else ""
  }

  // ----- character sets -----

  function Constant(b: bool): CharSet {
    seq(256, _ => b)
  }

  function Filled(m: CharSet, lo: char, hi: char, value: bool): CharSet {
    seq(256, i requires 0 <= i < 256 => if lo as int <= i <= hi as int then value else m[i])
  }

  function Inverted(m: CharSet): CharSet {
    seq(256, i requires 0 <= i < 256 => !m[i])
  }

  /** The operator at the start of a text, and how many characters it takes. */
  function OperatorAt(s: string): Operator {
    if s == "" then NOP
    else match s[0]
    case '*' => ZOM
    case '+' => OOM
    case '?' => ZOO
    case _ => NOP
  }

  function OpLength(s: string): (n: nat)
    ensures n <= |s|
  {
    if OperatorAt(s) == NOP then 0 else 1
  }

  // ----- classes -----

  /** The scan of a class behind its `[` or `[^`: `start` is the last single character, `value`
      what listed characters get. Behind an interval that ends in an escape one character too
      many is passed over; an unfinished interval or a `^` ends the scan. */
  function Scan(s: string, value: bool, m: CharSet, start: char, op: Operator): Group
    decreases |s|
  {
    if s == "" then Group(m, op)
    else if s[0] == ']' then Scan(Drop(s, 2), value, m, start, OperatorAt(s[1..]))
    else if s[0] == '-' then
      if |s| > 1 && s[1] != ']' && s[1] != '\\' then
        Scan(s[2..], value, Filled(m, start, s[1], value), start, op)
      else if |s| > 2 && s[1] == '\\' then
        Scan(Drop(s, 4), value, Filled(m, start, Unescape(s[2]), value), start, op)
      else Group(m, op)
    else if s[0] == '\\' && |s| > 1 then
      var c := Unescape(s[1]);
      Scan(s[2..], value, Filled(m, c, c, value), c, op)
    else if s[0] == '^' then Group(m, op)
    else Scan(s[1..], value, Filled(m, s[0], s[0], value), s[0], op)
  }

  function ClassGroup(re: string): Group
    requires |re| >= 2
  {
    if re[1] == '^' then Scan(re[2..], false, Constant(true), '\0', NOP)
    else Scan(re[1..], true, Constant(false), '\0', NOP)
  }

  class CharGroup {
    const group: array<bool>
    var op: Operator

    constructor ()
      ensures Valid() && op == NOP && fresh(group)
    {
      group := new bool[256];
      op := NOP;
    }

    ghost predicate Valid() {
      group.Length == 256
    }

    function Value(): Group
      requires Valid()
      reads this, group
    {
      Group(group[..], op)
    }

    method Fill(lo: char, hi: char, value: bool)
      requires Valid() && hi as int < 127
      modifies group
      ensures group[..] == Filled(old(group[..]), lo, hi, value)
    {
      var i := lo as int;
      while i <= hi as int
        invariant lo as int <= i && (lo <= hi ==> i <= hi as int + 1)
        invariant forall k :: 0 <= k < 256 ==>
          group[k] == if lo as int <= k < i && i <= hi as int + 1 then value else old(group[k])
      {
        group[i] := value;
        i := i + 1;
      }
    }

    method Put(c: char, value: bool)
      requires Valid() && c as int < 128
      modifies group
      ensures group[..] == Filled(old(group[..]), c, c, value)
    {
      group[c as int] := value;
    }

    method SetAll(value: bool)
      requires Valid()
      modifies group
      ensures group[..] == Constant(value)
    {
      for i := 0 to 256
        invariant forall k :: 0 <= k < i ==> group[k] == value
      {
        group[i] := value;
      }
    }

    method Inverse()
      requires Valid()
      modifies group
      ensures group[..] == Inverted(old(group[..]))
    {
      for i := 0 to 256
        invariant forall k :: 0 <= k < 256 ==> group[k] == if k < i then !old(group[k]) else old(group[k])
      {
        group[i] := !group[i];
      }
    }

    method SingleChar(c: char, exclude: bool)
      requires Valid()
      modifies group
      ensures group[..] == Filled(Constant(exclude), c, c, !exclude)
    {
      for i := 0 to 256
        invariant forall k :: 0 <= k < i ==> group[k] == if k == c as int then !exclude else exclude
      {
        group[i] := if i == c as int then !exclude else exclude;
      }
    }

    /** What is left to scan from position c on. */
    function Left(re: string, c: nat, value: bool, start: char): Group
      requires Valid()
      reads this, group
    {
      Scan(Drop(re, c), value, group[..], start, op)
    }

    /** Behind the `-` of an interval. */
    method ReadInterval(re: string, c: nat, value: bool, start: char) returns (next: nat, bad: bool)
      requires Valid() && Scannable(re) && 0 < c < |re| && re[c - 1] == '-'
      modifies group
      ensures c < next
      ensures if bad then Value() == old(Left(re, c - 1, value, start))
              else Left(re, next, value, start) == old(Left(re, c - 1, value, start))
    {
      hide Filled, Unescape;
      ghost var s := re[c - 1..];
      assert s[2..] == re[c + 1..];
      assert EndsInterval(re, c);
      if re[c] != ']' && re[c] != '\\' {
        Fill(start, re[c], value);
        return c + 1, false;
      } else if re[c] == '\\' && c + 1 < |re| {
        UnescapeSmall(re[c + 1]);
        assert EndsInterval(re, c + 1);
        Fill(start, Unescape(re[c + 1]), value);
        assert s[2] == re[c + 1] && Drop(s, 4) == Drop(re, c + 3);
        return c + 3, false;
      } else {
        return c + 1, true;
      }
    }

    /** A single character, escaped or not. */
    method ReadSingle(re: string, c: nat, value: bool) returns (next: nat, start: char)
      requires Valid() && Scannable(re) && c < |re| && re[c] !in {']', '-', '^'} && (re[c] == '\\' ==> c + 1 < |re|)
      modifies group
      ensures c < next && forall before :: old(Left(re, c, value, before)) == Left(re, next, value, start)
    {
      hide Filled, Unescape;
      ghost var s := re[c..];
      if re[c] == '\\' {
        start := Unescape(re[c + 1]);
        UnescapeSmall(re[c + 1]);
        next := c + 2;
        assert s[1] == re[c + 1] && s[2..] == re[c + 2..];
      } else {
        start := re[c];
        next := c + 1;
        assert s[1..] == re[c + 1..];
      }
      Put(start, value);
    }

    /** process_char_group */
    method Process(re: string)
      requires Valid() && op == NOP && Scannable(re)
      requires |re| >= 2 && re[0] == '[' && re[|re| - 1] !in {'-', '\\'}
      modifies this, group
      ensures Value() == ClassGroup(re)
    {
      var exclude := re[1] == '^';
      SetAll(exclude);
      var c := if exclude then 2 else 1;
      var start := '\0';
      while c < |re|
        invariant 1 <= c && Left(re, c, !exclude, start) == ClassGroup(re)
        decreases |re| - c
      {
        hide ClassGroup;
        ghost var s := re[c..];
        assert s != "" && s[|s| - 1] == re[|re| - 1];
        if re[c] == ']' {
          assert s[1..] == re[c + 1..] && Drop(s, 2) == Drop(re, c + 2);
          op := OperatorAt(re[c + 1..]);
          c := c + 2;
        } else if re[c] == '-' {
          var bad;
          c, bad := ReadInterval(re, c + 1, !exclude, start);
          if bad { return; }
        } else if re[c] == '^' {
          return;
        } else {
          c, start := ReadSingle(re, c, !exclude);
        }
      }
    }
  }

  lemma UnescapeSmall(c: char)
    requires c as int < 128
    ensures Unescape(c) as int < 128 && (c as int != 127 ==> Unescape(c) as int < 127)
  {
  }

  // ----- patterns -----

  /** How many characters of `s` come before the bracket that closes a class: the first one that is
      not right behind a backslash. All of them when there is none. */
  function Close(prev: char, s: string): (n: nat)
    ensures n <= |s|
    decreases |s|
  {
    if s == "" then 0
    else if prev != '\\' && s[0] == ']' then 0
    else 1 + Close(s[0], s[1..])
  }

  function Prepend(gs: seq<Group>, rest: Option<seq<Group>>): Option<seq<Group>> {
    if rest.Some? then Some(gs + rest.value) else None
  }

  /** The groups of a pattern text: `excluded` after a `^`, `seen` when there is a group already.
      None where the source ends up with a group that it never filled in. */
  function Parse(s: string, excluded: bool, seen: bool): Option<seq<Group>>
    decreases |s|, 1
  {
    if s == "" then if seen then Some([]) else None
    else if s[0] == '^' then Parse(s[1..], true, seen)
    else if s[0] == '[' then FinishClass(s, excluded, Close('[', s[1..]))
    else if s[0] == '\\' && |s| > 1 then
      FinishAtom(Filled(Constant(excluded), Unescape(s[1]), Unescape(s[1]), !excluded), s[2..])
    else if s[0] == '.' then FinishAtom(Constant(!excluded), s[1..])
    else FinishAtom(Filled(Constant(excluded), s[0], s[0], !excluded), s[1..])
  }

  /** A class from its `[`, with n characters before its closing bracket. */
  function FinishClass(s: string, excluded: bool, n: nat): Option<seq<Group>>
    decreases |s|, 0
  {
    if n + 1 >= |s| then None
    else
      var end := n + 2 + OpLength(s[n + 2..]);
      var g := ClassGroup(s[..end]);
      Prepend([Inverse(g, excluded)], Parse(s[end..], false, true))
  }

  /** What follows a single character. */
  function FinishAtom(m: CharSet, s: string): Option<seq<Group>>
    decreases |s|, 2
  {
    Prepend([Group(m, OperatorAt(s))], Parse(s[OpLength(s)..], false, true))
  }

  /** The list regexp_new builds from a text, if it is a pattern. */
  function Compile(source: string): Option<seq<Group>> {
    var gs := Parse(source, false, false);
    if gs.Some? then Some(OptiAll(gs.value)) else None
  }

  // ----- the reader -----

  datatype ReadingState = INIT | GROUP | OPERATOR

  /** What is left to read in each state. */
  function Rest(state: ReadingState, source: string, c: nat, from: nat, excluded: bool, saved: bool,
    m: CharSet): Option<seq<Group>>
    requires c <= |source| && (state.GROUP? ==> from < c)
  {
    match state
    case INIT => Parse(source[c..], excluded, saved)
    case GROUP => FinishClass(source[from..], excluded, c - from - 1 + Close(source[c - 1], source[c..]))
    case OPERATOR => FinishAtom(m, source[c..])
  }

  lemma PrependTwice(a: seq<Group>, g: Group, rest: Option<seq<Group>>)
    ensures Prepend(a, Prepend([g], rest)) == Prepend(a + [g], rest)
  {
    if rest.Some? {
      assert a + ([g] + rest.value) == (a + [g]) + rest.value;
    }
  }

  /** The text of a class in the source, from its bracket on. */
  lemma ClassText(source: string, from: nat, c: nat, excluded: bool, m: CharSet)
    requires from < c < |source| && source[from] == '[' && source[c] == ']' && source[c - 1] != '\\'
      && Scannable(source)
    ensures var end := c + 1 + OpLength(source[c + 1..]); var re := source[from..end];
      && from <= end <= |source| && Scannable(re) && |re| >= 2 && re[0] == '[' && re[|re| - 1] !in {'-', '\\'}
      && Rest(GROUP, source, c, from, excluded, false, m)
         == Prepend([Inverse(ClassGroup(re), excluded)], Parse(source[end..], false, true))
  {
    hide ClassGroup, Parse, Prepend, Inverse, Scannable;
    ScannablePart(source, from, c + 1 + OpLength(source[c + 1..]));
    var s, end := source[from..], c + 1 + OpLength(source[c + 1..]);
    assert s[c + 1 - from..] == source[c + 1..];
    assert s[..end - from] == source[from..end] && s[end - from..] == source[end..];
  }

  function Inverse(g: Group, inverse: bool): Group {
    if inverse then g.(members := Inverted(g.members)) else g
  }

  method ReadClass(re: string, inverse: bool) returns (g: Group)
    requires |re| >= 2 && re[0] == '[' && re[|re| - 1] !in {'-', '\\'} && Scannable(re)
    ensures g == Inverse(ClassGroup(re), inverse)
  {
    hide ClassGroup;
    var group := new CharGroup();
    group.Process(re);
    if inverse { group.Inverse(); }
    g := group.Value();
  }

  /** The set of a single character or of the dot, and how many characters were read. */
  method ReadAtom(source: string, c: nat, inverse: bool, ghost saved: bool) returns (m: CharSet, next: nat)
    requires c < |source| && source[c] !in {'^', '['}
    ensures c < next <= |source| && Parse(source[c..], inverse, saved) == FinishAtom(m, source[next..])
  {
    hide Filled, Unescape, FinishAtom;
    var group := new CharGroup();
    next := c + 1;
    if source[c] == '\\' && c + 1 < |source| {
      group.SingleChar(Unescape(source[c + 1]), inverse);
      next := c + 2;
    } else if source[c] == '.' {
      group.SetAll(!inverse);
    } else {
      group.SingleChar(source[c], inverse);
    }
    m := group.group[..];
    assert source[c..][next - c..] == source[next..];
  }

  /** Reading on from state to state loses nothing. */
  lemma ReadBracket(source: string, c: nat, from: nat, excluded: bool, saved: bool, m: CharSet)
    requires c < |source| && source[c] == '['
    ensures Rest(INIT, source, c, from, excluded, saved, m) == Rest(GROUP, source, c + 1, c, excluded, false, m)
  {
    hide FinishClass;
    assert source[c..][1..] == source[c + 1..];
  }

  lemma ReadExclusion(source: string, c: nat, from: nat, excluded: bool, saved: bool, m: CharSet)
    requires c < |source| && source[c] == '^'
    ensures Rest(INIT, source, c, from, excluded, saved, m) == Rest(INIT, source, c + 1, from, true, saved, m)
  {
    assert source[c..][1..] == source[c + 1..];
  }

  lemma ReadInClass(source: string, c: nat, from: nat, excluded: bool, m: CharSet)
    requires from < c < |source| && (source[c - 1] == '\\' || source[c] != ']')
    ensures Rest(GROUP, source, c, from, excluded, false, m) == Rest(GROUP, source, c + 1, from, excluded, false, m)
  {
    hide FinishClass;
    assert source[c..][1..] == source[c + 1..];
  }

  lemma ReadOperator(source: string, c: nat, from: nat, excluded: bool, m: CharSet)
    requires c <= |source|
    ensures Rest(OPERATOR, source, c, from, excluded, false, m)
            == Prepend([Group(m, OperatorAt(source[c..]))], Parse(source[c + OpLength(source[c..])..], false, true))
  {
    assert source[c..][OpLength(source[c..])..] == source[c + OpLength(source[c..])..];
  }

  lemma ReadAll(source: string, from: nat, excluded: bool, saved: bool, m: CharSet)
    ensures Rest(INIT, source, |source|, from, excluded, saved, m) == if saved then Some([]) else None
    ensures from < |source| ==> Rest(GROUP, source, |source|, from, excluded, saved, m).None?
    ensures Rest(OPERATOR, source, |source|, from, excluded, saved, m) == Some([Group(m, NOP)])
  {
    assert source[|source|..] == "" && Parse("", false, true) == Some([]);
    assert [Group(m, NOP)] + [] == [Group(m, NOP)];
  }

  lemma PrependLast(gs: seq<Group>, g: Group)
    ensures Prepend(gs, None).None? && Prepend(gs, Some([])) == Some(gs) && Prepend(gs, Some([g])) == Some(gs + [g])
    ensures forall rest :: Prepend([], rest) == rest
  {
    assert gs + [] == gs;
    forall rest: Option<seq<Group>> ensures Prepend([], rest) == rest {
      assert rest.Some? ==> [] + rest.value == rest.value;
    }
  }

  /** Add a group that has been read; `rest` is what comes behind it. */
  method Save(groups: Link?<Group>, g: Group, ghost nodes: seq<Link<Group>>, ghost rest: Option<seq<Group>>)
    returns (r: Link?<Group>, ghost more: seq<Link<Group>>)
    requires Chain(groups, nodes)
    modifies nodes
    ensures Chain(r, more) && |more| == |nodes| + 1 && more[..|nodes|] == nodes && fresh(more[|nodes|])
    ensures Contents(more) == old(Contents(nodes)) + [g]
    ensures Prepend(Contents(more), rest) == Prepend(old(Contents(nodes)), Prepend([g], rest))
  {
    PrependTwice(Contents(nodes), g, rest);
    r, more := AddLast(groups, g, nodes);
  }

  lemma EmptyList()
    ensures Chain<Group>(null, [])
  {
  }

  /** The reading loop of regexp_new. */
  method ReadGroups(source: string) returns (ok: bool, groups: Link?<Group>, ghost nodes: seq<Link<Group>>)
    requires Scannable(source)
    ensures ok == Parse(source, false, false).Some?
    ensures Chain(groups, nodes) && forall i :: 0 <= i < |nodes| ==> fresh(nodes[i])
    ensures ok ==> Contents(nodes) == Parse(source, false, false).value
  {
    hide Chain, Contents, Parse, Prepend, OperatorAt, OpLength, Constant, FinishAtom, FinishClass, ClassGroup,
      Close, Filled;
    groups, nodes := null, [];
    var state, c, from, inverse, saved, m := INIT, 0, 0, false, false, Constant(false);
    EmptyList();
    PrependLast([], Group(m, NOP));
    assert source[0..] == source;
    while c < |source|
      invariant c <= |source| && (state.GROUP? ==> from < c && source[from] == '[') && (!state.INIT? ==> !saved)
      invariant Chain(groups, nodes) && forall i :: 0 <= i < |nodes| ==> fresh(nodes[i])
      invariant Prepend(Contents(nodes), Rest(state, source, c, from, inverse, saved, m)) == Parse(source, false, false)
      decreases |source| - c, state.OPERATOR?
    {
      match state {
        case INIT =>
          if source[c] == '^' {
            ReadExclusion(source, c, from, inverse, saved, m);
            inverse := true;
            c := c + 1;
          } else if source[c] == '[' {
            ReadBracket(source, c, from, inverse, saved, m);
            from, saved, state := c, false, GROUP;
            c := c + 1;
          } else {
            m, c := ReadAtom(source, c, inverse, saved);
            saved, state := false, OPERATOR;
          }
        case GROUP =>
          if source[c - 1] != '\\' && source[c] == ']' {
            ClassText(source, from, c, inverse, m);
            var end := c + 1 + OpLength(source[c + 1..]);
            var g := ReadClass(source[from..end], inverse);
            groups, nodes := Save(groups, g, nodes, Parse(source[end..], false, true));
            state, c, inverse, saved := INIT, end, false, true;
          } else {
            ReadInClass(source, c, from, inverse, m);
            c := c + 1;
          }
        case OPERATOR =>
          ReadOperator(source, c, from, inverse, m);
          var g := Group(m, OperatorAt(source[c..]));
          var next := c + OpLength(source[c..]);
          groups, nodes := Save(groups, g, nodes, Parse(source[next..], false, true));
          c, state, inverse, saved := next, INIT, false, true;
      }
    }
    ReadAll(source, from, inverse, saved, m);
    PrependLast(Contents(nodes), Group(m, NOP));
    ok := saved || state.OPERATOR?;
    if state.OPERATOR? {
      groups, nodes := AddLast(groups, Group(m, NOP), nodes);
    }
  }

  /** regexp_new */
  method RegexpNew(source: string) returns (ok: bool, groups: Link?<Group>, ghost nodes: seq<Link<Group>>)
    requires Scannable(source)
    ensures ok == Compile(source).Some?
    ensures ok ==> Chain(groups, nodes) && Contents(nodes) == Compile(source).value
  {
    ok, groups, nodes := ReadGroups(source);
    nodes := OptiRegexp(groups, nodes);
  }
}
