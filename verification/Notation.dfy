/** What pattern texts mean, and that compiling one gives exactly the groups it denotes. */
module Notation {
  import opened Options
  import opened Regexp
  import opened Patterns
  import Rewriter

  // ----- patterns and their texts -----

  /** A character, or one behind a backslash. */
  datatype Symbol = Plain(c: char) | Escaped(c: char) {
    function Text(): string {
      if Escaped? then ['\\', c] else [c]
    }

    function Char(): char {
      if Escaped? then Unescape(c) else c
    }
  }

  /** `a` or `a-z`. */
  datatype Item = Item(from: Symbol, to: Option<char>)

  datatype Atom = Dot | Single(sym: Symbol) | Class(negated: bool, items: seq<Item>)

  datatype Piece = Piece(excluded: bool, atom: Atom, op: Operator)

  function ItemText(it: Item): string {
    it.from.Text() + (if it.to.Some? then ['-', it.to.value] else "")
  }

  function ItemsText(items: seq<Item>): string {
    if items == [] then "" else ItemText(items[0]) + ItemsText(items[1..])
  }

  function Not(b: bool): string {
    if b then "^" else ""
  }

  function OpText(op: Operator): string {
    match op
    case NOP => ""
    case ZOM => "*"
    case OOM => "+"
    case ZOO => "?"
  }

  function AtomText(a: Atom): string {
    match a
    case Dot => "."
    case Single(sym) => sym.Text()
    case Class(negated, items) => "[" + Not(negated) + ItemsText(items) + "]"
  }

  function Text(ps: seq<Piece>): string {
    if ps == [] then "" else Not(ps[0].excluded) + AtomText(ps[0].atom) + OpText(ps[0].op) + Text(ps[1..])
  }

  // ----- their meaning -----

  predicate ItemHas(it: Item, c: char) {
    c == it.from.Char() || (it.to.Some? && it.from.Char() <= c <= it.to.value)
  }

  predicate AtomHas(a: Atom, c: char) {
    match a
    case Dot => true
    case Single(sym) => c == sym.Char()
    case Class(negated, items) => negated != exists k :: 0 <= k < |items| && ItemHas(items[k], c)
  }

  function GroupOf(p: Piece): Group {
    Group(seq(256, i requires 0 <= i < 256 => p.excluded != AtomHas(p.atom, i as char)), p.op)
  }

  function Groups(ps: seq<Piece>): seq<Group> {
    if ps == [] then [] else [GroupOf(ps[0])] + Groups(ps[1..])
  }

  // ----- which texts are read as written -----

  predicate ItemOk(it: Item) {
    && (it.from.Plain? ==> it.from.c !in {']', '-', '\\', '^'})
    && (it.to.Some? ==> it.to.value !in {']', '\\'})
  }

  /** The last item is not an escaped backslash. */
  predicate Closed(items: seq<Item>) {
    items == [] || items[|items| - 1] != Item(Escaped('\\'), None)
  }

  predicate AtomOk(a: Atom) {
    match a
    case Dot => true
    case Single(sym) => sym.Plain? ==> sym.c !in {'^', '[', '\\', '.', '*', '+', '?'}
    case Class(_, items) => (forall k :: 0 <= k < |items| ==> ItemOk(items[k])) && Closed(items)
  }

  // ----- where a class ends -----

  function LastChar(it: Item): char {
    if it.to.Some? then it.to.value else it.from.c
  }

  lemma CloseStep(prev: char, c: char, v: string)
    requires prev == '\\' || c != ']'
    ensures Close(prev, [c] + v) == 1 + Close(c, v)
  {
    assert ([c] + v)[1..] == v;
  }

  lemma CloseItem(prev: char, it: Item, v: string)
    requires ItemOk(it)
    ensures Close(prev, ItemText(it) + v) == |ItemText(it)| + Close(LastChar(it), v)
  {
    hide Close;
    var to := if it.to.Some? then ['-', it.to.value] else "";
    var u := to + v;
    assert ItemText(it) + v == it.from.Text() + u;
    if it.from.Escaped? {
      assert it.from.Text() + u == ['\\'] + ([it.from.c] + u);
      CloseStep(prev, '\\', [it.from.c] + u);
      CloseStep('\\', it.from.c, u);
    } else {
      CloseStep(prev, it.from.c, u);
    }
    if it.to.Some? {
      assert u == ['-'] + ([it.to.value] + v);
      CloseStep(it.from.c, '-', [it.to.value] + v);
      CloseStep('-', it.to.value, v);
    } else {
      assert u == v;
    }
  }

  /** A class ends at its written bracket exactly when its last item is not an escaped backslash. */
  lemma {:induction false} CloseExact(prev: char, items: seq<Item>, v: string)
    requires forall k :: 0 <= k < |items| ==> ItemOk(items[k])
    requires prev != '\\' || items != []
    ensures Close(prev, ItemsText(items) + "]" + v) == |ItemsText(items)| <==> Closed(items)
    decreases |items|
  {
    hide ItemText;
    if items == [] {
      assert ItemsText(items) + "]" + v == "]" + v;
    } else {
      var tail := ItemsText(items[1..]) + "]" + v;
      assert ItemsText(items) + "]" + v == ItemText(items[0]) + tail;
      CloseItem(prev, items[0], tail);
      if |items| > 1 {
        CloseExact(LastChar(items[0]), items[1..], v);
      } else {
        assert tail == "]" + v;
        assert LastChar(items[0]) == '\\' <==> items[0] == Item(Escaped('\\'), None);
      }
    }
  }

  // ----- what a class holds -----

  function Listed(it: Item, m: CharSet, value: bool): CharSet {
    var m1 := Filled(m, it.from.Char(), it.from.Char(), value);
    if it.to.Some? then Filled(m1, it.from.Char(), it.to.value, value) else m1
  }

  function AllListed(items: seq<Item>, m: CharSet, value: bool): CharSet {
    if items == [] then m else AllListed(items[1..], Listed(items[0], m, value), value)
  }

  lemma ScanItem(it: Item, v: string, value: bool, m: CharSet, start: char)
    requires ItemOk(it)
    ensures Scan(ItemText(it) + v, value, m, start, NOP) == Scan(v, value, Listed(it, m, value), it.from.Char(), NOP)
  {
    hide Filled, Unescape;
    var s := ItemText(it) + v;
    var n := |it.from.Text()|;
    assert s[|ItemText(it)|..] == v;
    if it.to.Some? {
      assert s[n..][2..] == v && s[n..][1] == it.to.value && s[n..][0] == '-';
    }
  }

  lemma {:induction false} ScanItems(items: seq<Item>, op: Operator, value: bool, m: CharSet, start: char)
    requires forall k :: 0 <= k < |items| ==> ItemOk(items[k])
    ensures Scan(ItemsText(items) + "]" + OpText(op), value, m, start, NOP) == Group(AllListed(items, m, value), op)
  {
    hide Listed;
    if items == [] {
      var s := "]" + OpText(op);
      assert ItemsText(items) + "]" + OpText(op) == s;
      assert s[1..] == OpText(op) && Drop(s, 2) == "";
    } else {
      var tail := ItemsText(items[1..]) + "]" + OpText(op);
      assert ItemsText(items) + "]" + OpText(op) == ItemText(items[0]) + tail;
      ScanItem(items[0], tail, value, m, start);
      ScanItems(items[1..], op, value, Listed(items[0], m, value), items[0].from.Char());
    }
  }

  lemma {:induction false} AllListedHas(items: seq<Item>, m: CharSet, value: bool, i: nat)
    requires i < 256
    ensures AllListed(items, m, value)[i] ==
            if exists k :: 0 <= k < |items| && ItemHas(items[k], i as char) then value else m[i]
  {
    if items != [] {
      AllListedHas(items[1..], Listed(items[0], m, value), value, i);
      assert forall k :: 0 <= k < |items[1..]| ==> items[1..][k] == items[k + 1];
      assert forall k :: 1 <= k < |items| ==> items[k] == items[1..][k - 1];
    }
  }

  // ----- reading a pattern back -----

  /** The text of a class without what follows it. */
  function ClassOf(a: Atom, op: Operator): string
    requires a.Class?
  {
    AtomText(a) + OpText(op)
  }

  lemma ClassRead(a: Atom, op: Operator, excluded: bool)
    requires a.Class? && AtomOk(a)
    ensures |ClassOf(a, op)| >= 2
    ensures Inverse(ClassGroup(ClassOf(a, op)), excluded) == GroupOf(Piece(excluded, a, op))
  {
    hide Scan, ItemsText;
    var re, body := ClassOf(a, op), ItemsText(a.items) + "]" + OpText(op);
    assert re[if a.negated then 2 else 1..] == body;
    ScanItems(a.items, op, !a.negated, Constant(a.negated), '\0');
    NotNegated(a, op);
    var g := Inverse(ClassGroup(re), excluded);
    forall i | 0 <= i < 256 ensures g.members[i] == GroupOf(Piece(excluded, a, op)).members[i] {
      AllListedHas(a.items, Constant(a.negated), !a.negated, i);
    }
    assert g.members == GroupOf(Piece(excluded, a, op)).members;
  }

  /** Only a negated class starts with `^`. */
  lemma NotNegated(a: Atom, op: Operator)
    requires a.Class? && AtomOk(a)
    ensures ClassOf(a, op)[1] == '^' <==> a.negated
  {
    if !a.negated && a.items != [] {
      assert ItemOk(a.items[0]);
    }
  }

  lemma OpRead(op: Operator, t: string)
    requires OperatorAt(t) == NOP
    ensures OperatorAt(OpText(op) + t) == op && OpLength(OpText(op) + t) == |OpText(op)|
    ensures (OpText(op) + t)[|OpText(op)|..] == t
  {
  }

  lemma FinishRead(m: CharSet, op: Operator, t: string)
    requires OperatorAt(t) == NOP
    ensures FinishAtom(m, OpText(op) + t) == Prepend([Group(m, op)], Parse(t, false, true))
  {
    hide OperatorAt, OpText, Parse;
    OpRead(op, t);
  }

  lemma SingleSet(p: Piece)
    requires !p.atom.Class? && AtomOk(p.atom)
    ensures GroupOf(p).members ==
            if p.atom.Dot? then Constant(!p.excluded)
            else Filled(Constant(p.excluded), p.atom.sym.Char(), p.atom.sym.Char(), !p.excluded)
  {
    var m := GroupOf(p).members;
    if p.atom.Single? {
      forall i | 0 <= i < 256
        ensures m[i] == Filled(Constant(p.excluded), p.atom.sym.Char(), p.atom.sym.Char(), !p.excluded)[i]
      {
        assert i as char == p.atom.sym.Char() <==> i == p.atom.sym.Char() as int;
      }
    }
  }

  lemma SingleParse(p: Piece, t: string, seen: bool)
    requires !p.atom.Class? && AtomOk(p.atom) && OperatorAt(t) == NOP
    ensures Parse(AtomText(p.atom) + OpText(p.op) + t, p.excluded, seen) == Prepend([GroupOf(p)], Parse(t, false, true))
  {
    hide OperatorAt, OpText, FinishAtom, GroupOf, Filled, Unescape;
    var s := AtomText(p.atom) + OpText(p.op) + t;
    assert s[|AtomText(p.atom)|..] == OpText(p.op) + t;
    SingleSet(p);
    FinishRead(GroupOf(p).members, p.op, t);
    GroupOp(p);
  }

  lemma GroupOp(p: Piece)
    ensures GroupOf(p) == Group(GroupOf(p).members, p.op)
  {
  }

  lemma ClassParse(p: Piece, t: string, seen: bool)
    requires p.atom.Class? && AtomOk(p.atom) && OperatorAt(t) == NOP
    ensures Parse(AtomText(p.atom) + OpText(p.op) + t, p.excluded, seen) == Prepend([GroupOf(p)], Parse(t, false, true))
  {
    hide OperatorAt, OpText, OpLength, GroupOf, ClassGroup, Inverse, ItemsText, Close, Prepend;
    var a, re, s := p.atom, ClassOf(p.atom, p.op), AtomText(p.atom) + OpText(p.op) + t;
    ClassEnd(a, OpText(p.op) + t);
    var n := |AtomText(a)| - 2;
    assert s == AtomText(a) + (OpText(p.op) + t);
    assert s[n + 2..] == OpText(p.op) + t;
    OpRead(p.op, t);
    assert s[..|re|] == re && s[|re|..] == t;
    ClassRead(a, p.op, p.excluded);
  }

  lemma ClassEnd(a: Atom, v: string)
    requires a.Class? && AtomOk(a)
    ensures Close('[', (AtomText(a) + v)[1..]) == |AtomText(a)| - 2
  {
    var u := ItemsText(a.items) + "]" + v;
    if a.negated {
      assert (AtomText(a) + v)[1..] == "^" + u;
      assert ("^" + u)[1..] == u;
      CloseExact('^', a.items, v);
    } else {
      assert (AtomText(a) + v)[1..] == u;
      CloseExact('[', a.items, v);
    }
  }

  /** No pattern starts with an operator. */
  lemma NoOperatorFirst(ps: seq<Piece>)
    requires forall k :: 0 <= k < |ps| ==> AtomOk(ps[k].atom)
    ensures OperatorAt(Text(ps)) == NOP
  {
    if ps != [] {
      assert AtomOk(ps[0].atom);
    }
  }

  lemma PieceParse(p: Piece, t: string, seen: bool)
    requires AtomOk(p.atom) && OperatorAt(t) == NOP
    ensures Parse(Not(p.excluded) + AtomText(p.atom) + OpText(p.op) + t, false, seen)
            == Prepend([GroupOf(p)], Parse(t, false, true))
  {
    hide OperatorAt, OpText, FinishAtom, FinishClass, GroupOf, AtomOk, AtomText;
    var u := AtomText(p.atom) + OpText(p.op) + t;
    if p.excluded {
      assert Not(true) + AtomText(p.atom) + OpText(p.op) + t == "^" + u && ("^" + u)[1..] == u;
    } else {
      assert Not(false) + AtomText(p.atom) + OpText(p.op) + t == u;
    }
    if p.atom.Class? { ClassParse(p, t, seen); } else { SingleParse(p, t, seen); }
  }

  /** Printing and compiling: the groups are the denoted ones, in order. */
  lemma {:induction false} TextParse(ps: seq<Piece>, seen: bool)
    requires forall k :: 0 <= k < |ps| ==> AtomOk(ps[k].atom)
    requires ps != [] || seen
    ensures Parse(Text(ps), false, seen) == Some(Groups(ps))
  {
    hide AtomOk, GroupOf, OperatorAt, OpText, AtomText, Not, FinishAtom, FinishClass;
    if ps != [] {
      TextParse(ps[1..], true);
      NoOperatorFirst(ps[1..]);
      PieceParse(ps[0], Text(ps[1..]), seen);
    }
  }

  /** From text to language: a compiled pattern accepts exactly the words of its pieces. */
  lemma PatternMeans(ps: seq<Piece>, w: string)
    requires ps != [] && forall k :: 0 <= k < |ps| ==> AtomOk(ps[k].atom)
    ensures Compile(Text(ps)).Some?
    ensures Lang(Compile(Text(ps)).value, w) <==> Lang(Groups(ps), w)
  {
    hide Lang, Text, Groups, AtomOk, Parse, Rewriter.OptiAll;
    TextParse(ps, false);
    Rewriter.LanguageKept(Groups(ps), w);
  }

  /** An escaped end of an interval: the closing bracket behind it is passed over, so the operator is
      lost and its sign becomes a member of the class. */
  lemma EscapedEnd(a: char, e: char, c: char)
    requires a !in {']', '-', '\\', '^'}
    ensures var g := ClassGroup(['[', a, '-', '\\', e, ']', '+']);
      g.op == NOP && (g.In(c) <==> c as int < 128 && (c == a || a <= c <= Unescape(e) || c == '+'))
  {
    hide Filled, Unescape;
    var m0 := Filled(Constant(false), a, a, true);
    var m1 := Filled(m0, a, Unescape(e), true);
    EndScanned(a, e);
    FilledHas(Constant(false), a, a, c);
    FilledHas(m0, a, Unescape(e), c);
    FilledHas(m1, '+', '+', c);
  }

  lemma EndScanned(a: char, e: char)
    requires a !in {']', '-', '\\', '^'}
    ensures var m := Filled(Filled(Constant(false), a, a, true), a, Unescape(e), true);
      ClassGroup(['[', a, '-', '\\', e, ']', '+']) == Group(Filled(m, '+', '+', true), NOP)
  {
    hide Filled, Unescape;
    var re, s, t := ['[', a, '-', '\\', e, ']', '+'], ['-', '\\', e, ']', '+'], ['+'];
    var m0 := Filled(Constant(false), a, a, true);
    var m1 := Filled(m0, a, Unescape(e), true);
    assert re[1..][1..] == s && Drop(s, 4) == t && t[1..] == "";
    assert Scan(t, true, m1, a, NOP) == Scan("", true, Filled(m1, '+', '+', true), '+', NOP);
    assert Scan(s, true, m0, a, NOP) == Scan(t, true, m1, a, NOP);
    assert re[1..][0] == a;
    assert Scan(re[1..], true, Constant(false), '\0', NOP) == Scan(s, true, m0, a, NOP);
  }

  lemma FilledHas(m: CharSet, lo: char, hi: char, c: char)
    ensures Group(Filled(m, lo, hi, true), NOP).In(c) <==> c as int < 128 && (lo <= c <= hi || Group(m, NOP).In(c))
  {
  }
}
