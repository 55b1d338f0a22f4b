/** Addresses, conservation and label resolution over whole programs
    (compilateur/src/parser.c:63-99, compilateur/src/asm_line.c:302-332). */
module Labels {
  import opened Options
  import opened AsmLine
  import opened Grammar

  // ----- addresses -----

  /** Every line's address is four times the number of instruction words before it. */
  predicate WellAddressed(lines: seq<Line>, start: int) {
    forall k :: 0 <= k < |lines| ==> lines[k].addr == start + 4 * Count(lines[..k])
  }

  lemma AppendAddressed(a: seq<Line>, b: seq<Line>, start: int)
    requires WellAddressed(a, start) && WellAddressed(b, start + 4 * Count(a))
    ensures WellAddressed(a + b, start)
  {
    forall k | 0 <= k < |a + b| ensures (a + b)[k].addr == start + 4 * Count((a + b)[..k]) {
      if k < |a| {
        assert (a + b)[..k] == a[..k];
      } else {
        assert (a + b)[..k] == a + b[..k - |a|];
        CountAppend(a, b[..k - |a|]);
        assert (a + b)[k] == b[k - |a|];
      }
    }
  }

  lemma LinesAddressed(a: Alt, input: seq<Lexem>, pos: nat, addr: int)
    requires pos + Length(a) <= |input|
    ensures WellAddressed(Lines(a, input, pos, addr), addr)
      && Count(Lines(a, input, pos, addr)) == |Lines(a, input, pos, addr)|
  {
    hide Str2Insn, Str2Reg, Atoi;
    LinesAreInsns(a, input, pos, addr);
    var lines := Lines(a, input, pos, addr);
    CountAll(lines);
    forall k | 0 <= k < |lines| ensures lines[k].addr == addr + 4 * Count(lines[..k]) {
      CountAll(lines[..k]);
    }
  }

  lemma EmptyAddressed(addr: int)
    ensures WellAddressed([], addr)
  {
  }

  lemma LabelAddressed(line: Line)
    requires line.LabelLine?
    ensures WellAddressed([line], line.addr) && Count([line]) == 0
  {
    assert [line][..0] == [];
  }

  lemma {:induction false} TranslateAddressed(input: seq<Lexem>, pos: nat, addr: int)
    requires pos <= |input|
    ensures WellAddressed(Translate(input, pos, addr), addr)
    decreases |input| - pos
  {
    hide Is, Lines, FirstAlt, WellAddressed, Tail;
    if pos == |input| {
      EmptyAddressed(addr);
    } else if Is(input, pos, LabelDef) {
      TranslateAddressed(input, pos + 1, addr);
      var line := [LabelLine(LabelName(input[pos].value), addr)];
      LabelAddressed(line[0]);
      AppendAddressed(line, Translate(input, pos + 1, addr), addr);
    } else {
      var alt := FirstAlt(input, pos);
      if alt.Some? && !IsLayout(input, pos) {
        var lines := Lines(alt.value, input, pos, addr);
        LinesAddressed(alt.value, input, pos, addr);
        TranslateAddressed(input, pos + Length(alt.value), addr + 4 * |lines|);
        AppendAddressed(lines, Translate(input, pos + Length(alt.value), addr + 4 * |lines|), addr);
      } else {
        TranslateAddressed(input, pos + 1, addr);
      }
    }
  }

  /** The whole program is well addressed from 0, labels and closing jump included. */
  lemma ProgramAddressed(input: seq<Lexem>)
    ensures WellAddressed(Program(input), 0)
  {
    var start, body := [LabelLine(PROG_START, 0)], Translate(input, 0, 0);
    TranslateAddressed(input, 0, 0);
    assert Count(start) == 0;
    AppendAddressed(start, body, 0);
    AppendAddressed(start + body, [InsnLine(JAL, 6, 0, 0, 0, PROG_START, 4 * Count(start + body))], 0);
  }

  // ----- conservation -----

  /** Mnemonics from lexeme `pos` on. */
  function Insns(input: seq<Lexem>, pos: nat): nat
    requires pos <= |input|
    decreases |input| - pos
  {
    if pos == |input| then 0 else (if InsnKind(input[pos].kind) then 1 else 0) + Insns(input, pos + 1)
  }

  /** Branch mnemonics from lexeme `pos` on. */
  function Branches(input: seq<Lexem>, pos: nat): nat
    requires pos <= |input|
    decreases |input| - pos
  {
    if pos == |input| then 0 else (if IsHead(input, pos, Branch) then 1 else 0) + Branches(input, pos + 1)
  }

  function Weight(input: seq<Lexem>, pos: nat): nat
    requires pos <= |input|
  {
    Insns(input, pos) + 2 * Branches(input, pos)
  }

  /** A stretch of lexemes without mnemonics weighs nothing. */
  lemma {:induction false} NoMnemonics(input: seq<Lexem>, from: nat, to: nat)
    requires from <= to <= |input|
    requires forall k :: from <= k < to ==> !InsnKind(input[k].kind)
    ensures Weight(input, from) == Weight(input, to)
    decreases |input| - from
  {
    hide Is, Heads;
    if from < to {
      if IsHead(input, from, Branch) {
        HeadIsInsn(input, from, Branch);
      }
      NoMnemonics(input, from + 1, to);
    }
  }

  lemma NoMnemonicAt(input: seq<Lexem>, pos: nat, t: Terminal)
    requires Is(input, pos, t) && !t.Insn? && t !in {PseudoJ, PseudoLi, PseudoMv, PseudoBle}
    ensures Weight(input, pos) == Weight(input, pos + 1)
  {
    OtherIsNoInsn(input, pos, t);
    NoMnemonics(input, pos, pos + 1);
  }

  /** A mnemonic that starts a branch starts no other production. */
  lemma OnlyBranch(input: seq<Lexem>, pos: nat, a: Alt)
    requires IsHead(input, pos, a)
    ensures IsHead(input, pos, Branch) <==> a == Branch
  {
    hide Name, Heads;
    var k :| 0 <= k < |Heads(a)| && Is(input, pos, Heads(a)[k]);
    BranchLetter(a, k);
    var kind, name := input[pos].kind, Name(Heads(a)[k]);
    assert kind[6] == name[6] && kind[0] == name[0];
    if IsHead(input, pos, Branch) {
      var j :| 0 <= j < |Heads(Branch)| && Is(input, pos, Heads(Branch)[j]);
      BranchLetter(Branch, j);
      assert kind[6] == Name(Heads(Branch)[j])[6] && kind[0] == Name(Heads(Branch)[j])[0];
    }
  }

  /** Only branch mnemonics start with B after `insn::`. */
  lemma BranchLetter(a: Alt, k: nat)
    requires k < |Heads(a)|
    ensures var name := Name(Heads(a)[k]);
      |name| > 6 && ((name[0] == 'i' && name[6] == 'B') <==> a == Branch)
  {
    hide Name;
    var t := Heads(a)[k];
    HeadType(a, k);
    if t.Insn? {
      LetterOf(t.m);
    } else {
      PseudoLetter(t);
    }
  }

  lemma HeadType(a: Alt, k: nat)
    requires k < |Heads(a)|
    ensures var t := Heads(a)[k];
      (t.Insn? || t in {PseudoJ, PseudoLi, PseudoMv}) && (t.Insn? && TypeOf(t.m) == TYPE_BRANCH <==> a == Branch)
  {
  }

  lemma LetterOf(m: Mnemonic)
    ensures var name := Name(Insn(m)); |name| > 6 && name[0] == 'i' && (name[6] == 'B' <==> TypeOf(m) == TYPE_BRANCH)
  {
    assert Name(Insn(m))[6] == MnemonicName(m)[0];
  }

  lemma PseudoLetter(t: Terminal)
    requires t in {PseudoJ, PseudoLi, PseudoMv}
    ensures |Name(t)| > 6 && Name(t)[0] == 'u'
  {
  }

  lemma TailHasNoMnemonic(a: Alt, k: nat)
    requires k < |Tail(a)|
    ensures !Tail(a)[k].Insn? && Tail(a)[k] !in {PseudoJ, PseudoLi, PseudoMv, PseudoBle}
  {
  }

  /** An instruction's lexemes weigh as many as its lines. */
  lemma InsnWeight(input: seq<Lexem>, pos: nat, addr: int)
    requires FirstAlt(input, pos).Some?
    ensures var a := FirstAlt(input, pos).value;
      Weight(input, pos) == |Lines(a, input, pos, addr)| + Weight(input, pos + Length(a))
  {
    hide Name, Is, FirstAlt, Heads, Tail, Str2Insn, Str2Reg, Atoi;
    var a := FirstAlt(input, pos).value;
    HeadIsInsn(input, pos, a);
    OnlyBranch(input, pos, a);
    forall k | pos + 1 <= k < pos + Length(a) ensures !InsnKind(input[k].kind) {
      TailHasNoMnemonic(a, k - pos - 1);
      assert Is(input, pos + 1 + (k - pos - 1), Tail(a)[k - pos - 1]);
      OtherIsNoInsn(input, k, Tail(a)[k - pos - 1]);
    }
    NoMnemonics(input, pos + 1, pos + Length(a));
    assert |Lines(a, input, pos, addr)| == if a == Branch then 3 else 1;
  }

  lemma {:induction false} EolWeight(input: seq<Lexem>, pos: nat, addr: int)
    requires pos <= |input| && EolEnd(input, pos).Some?
    ensures Weight(input, pos) == Weight(input, EolEnd(input, pos).value)
    ensures Translate(input, pos, addr) == Translate(input, EolEnd(input, pos).value, addr)
    decreases |input| - pos
  {
    hide Name, Is, Translate, Weight;
    if IsLayout(input, pos) {
      var p1 := if Is(input, pos, Blank) then pos + 1 else pos;
      if p1 != pos { SkipLayout(input, pos, addr, Blank); }
      var p2 := if Is(input, p1, Comment) then p1 + 1 else p1;
      if p2 != p1 { SkipLayout(input, p1, addr, Comment); }
      SkipLayout(input, p2, addr, Newline);
      var p4 := if Is(input, p2 + 1, Blank) then p2 + 2 else p2 + 1;
      if p4 != p2 + 1 { SkipLayout(input, p2 + 1, addr, Blank); }
      EolWeight(input, p4, addr);
    }
  }

  lemma SkipLayout(input: seq<Lexem>, pos: nat, addr: int, t: Terminal)
    requires t in {Blank, Comment, Newline} && Is(input, pos, t)
    ensures Weight(input, pos) == Weight(input, pos + 1)
      && Translate(input, pos, addr) == Translate(input, pos + 1, addr)
  {
    hide Name, FirstAlt, Lines, Is;
    NoMnemonicAt(input, pos, t);
    LayoutIsNoLabel(input, pos);
  }

  lemma TranslateNothing(input: seq<Lexem>, addr: int)
    ensures Translate(input, |input|, addr) == []
  {
  }

  lemma LabelWeight(input: seq<Lexem>, pos: nat, addr: int)
    requires Is(input, pos, LabelDef)
    ensures Weight(input, pos) == Weight(input, pos + 1)
    ensures Count(Translate(input, pos, addr)) == Count(Translate(input, pos + 1, addr))
  {
    hide Name, FirstAlt, Lines, Is;
    NoMnemonicAt(input, pos, LabelDef);
    var line := [LabelLine(LabelName(input[pos].value), addr)];
    CountAppend(line, Translate(input, pos + 1, addr));
    assert Count(line) == 0;
  }

  /** Line by line: translated words against mnemonics. */
  predicate Balanced(input: seq<Lexem>, pos: nat, addr: int)
    requires pos <= |input|
  {
    Count(Translate(input, pos, addr)) == Weight(input, pos)
  }

  lemma LineBalanced(input: seq<Lexem>, pos: nat, addr: int)
    requires pos <= |input| && LineEnd(input, pos).Some?
    requires forall addr' :: Balanced(input, LineEnd(input, pos).value, addr')
    ensures Balanced(input, pos, addr)
  {
    hide Name, Is, FirstAlt, Lines, Translate, Weight, Count;
    if Is(input, pos, LabelDef) {
      LabelWeight(input, pos, addr);
      assert Balanced(input, pos + 1, addr);
    } else {
      var a := FirstAlt(input, pos).value;
      var p, addr' := pos + Length(a), addr + 4 * |Lines(a, input, pos, addr)|;
      assert Balanced(input, LineEnd(input, pos).value, addr');
      if Is(input, p, LabelDef) {
        LabelWeight(input, p, addr');
      }
      InsnWeight(input, pos, addr);
      InsnStep(input, [], pos, addr);
      var lines, rest := Lines(a, input, pos, addr), Translate(input, p, addr');
      CountAppend(lines, rest);
      LinesAddressed(a, input, pos, addr);
      assert [] + Translate(input, pos, addr) == Translate(input, pos, addr) && [] + lines == lines;
    }
  }

  lemma {:induction false} RestBalanced(input: seq<Lexem>, pos: nat, addr: int)
    requires pos <= |input| && RestOk(input, pos)
    ensures Balanced(input, pos, addr)
    decreases |input| - pos
  {
    hide Name, Is, LineEnd, EolEnd;
    var p := LineEnd(input, pos);
    if p.None? {
    } else {
      var q := EolEnd(input, p.value).value;
      forall addr' ensures Balanced(input, p.value, addr') {
        RestBalanced(input, q, addr');
        EolWeight(input, p.value, addr');
      }
      LineBalanced(input, pos, addr);
    }
  }

  /** Conservation: an accepted program has one word per instruction, two more per branch, and
      one for the closing jump. */
  lemma Conservation(input: seq<Lexem>)
    requires Accepted(input)
    ensures Count(Program(input)) == Insns(input, 0) + 2 * Branches(input, 0) + 1
  {
    hide Name, Is, LineEnd, EolEnd, Translate;
    var p0 := if Is(input, 0, Comment) then 1 else 0;
    var p1 := LineEnd(input, p0);
    var p2 := if p1.Some? then p1.value else p0;
    forall addr ensures Balanced(input, p2, addr) {
      RestBalanced(input, EolEnd(input, p2).value, addr);
      EolWeight(input, p2, addr);
    }
    if p1.Some? {
      LineBalanced(input, p0, 0);
    }
    if p0 == 1 {
      SkipLayout(input, 0, 0, Comment);
    }
    assert Balanced(input, p0, 0) && Balanced(input, 0, 0);
    var start, body := [LabelLine(PROG_START, 0)], Translate(input, 0, 0);
    CountAppend(start, body);
    assert Count(start) == 0;
    CountAppend(start + body, [InsnLine(JAL, 6, 0, 0, 0, PROG_START, 4 * Count(start + body))]);
  }

  // ----- a mnemonic without a production -----

  /** No `nop` among these lexemes. */
  predicate NopFree(input: seq<Lexem>, from: nat, to: nat)
    requires to <= |input|
  {
    forall k :: from <= k < to ==> input[k].kind != "insn::NOP"
  }

  lemma NopIsNoHead(input: seq<Lexem>, pos: nat, a: Alt)
    requires IsHead(input, pos, a)
    ensures input[pos].kind != "insn::NOP"
  {
    hide Name, Heads;
    var k :| 0 <= k < |Heads(a)| && Is(input, pos, Heads(a)[k]);
    var t := Heads(a)[k];
    HeadType(a, k);
    HeadIsNotNop(a, k);
    if t.Insn? {
      NoN(t.m);
      assert input[pos].kind[6] == Name(t)[6];
    } else {
      PseudoLetter(t);
      assert input[pos].kind[0] == Name(t)[0];
    }
  }

  lemma HeadIsNotNop(a: Alt, k: nat)
    requires k < |Heads(a)|
    ensures Heads(a)[k] != Insn(NOP)
  {
  }

  lemma NoN(m: Mnemonic)
    requires m != NOP
    ensures var name := Name(Insn(m)); |name| > 6 && name[6] != 'N'
  {
    assert Name(Insn(m))[6] == MnemonicName(m)[0];
  }

  lemma OtherIsNoNop(input: seq<Lexem>, pos: nat, t: Terminal)
    requires Is(input, pos, t) && !t.Insn? && t !in {PseudoJ, PseudoLi, PseudoMv, PseudoBle}
    ensures input[pos].kind != "insn::NOP"
  {
    OtherIsNoInsn(input, pos, t);
    assert InsnKind("insn::NOP");
  }

  lemma AltFree(input: seq<Lexem>, pos: nat)
    requires FirstAlt(input, pos).Some?
    ensures NopFree(input, pos, pos + Length(FirstAlt(input, pos).value))
  {
    hide Name, Is, FirstAlt, Heads, IsHead, Tail;
    var a := FirstAlt(input, pos).value;
    NopIsNoHead(input, pos, a);
    forall k | pos + 1 <= k < pos + Length(a) ensures input[k].kind != "insn::NOP" {
      TailHasNoMnemonic(a, k - pos - 1);
      assert Is(input, pos + 1 + (k - pos - 1), Tail(a)[k - pos - 1]);
      OtherIsNoNop(input, k, Tail(a)[k - pos - 1]);
    }
  }

  lemma LineFree(input: seq<Lexem>, pos: nat)
    requires pos <= |input| && LineEnd(input, pos).Some?
    ensures NopFree(input, pos, LineEnd(input, pos).value)
  {
    hide Name, Is, FirstAlt, Tail;
    if Is(input, pos, LabelDef) {
      OtherIsNoNop(input, pos, LabelDef);
    } else {
      AltFree(input, pos);
      var p := pos + Length(FirstAlt(input, pos).value);
      if Is(input, p, LabelDef) {
        OtherIsNoNop(input, p, LabelDef);
      }
    }
  }

  lemma {:induction false} EolFree(input: seq<Lexem>, pos: nat)
    requires pos <= |input| && EolEnd(input, pos).Some?
    ensures NopFree(input, pos, EolEnd(input, pos).value)
    decreases |input| - pos
  {
    hide Name, Is;
    if IsLayout(input, pos) {
      var p1 := if Is(input, pos, Blank) then pos + 1 else pos;
      if p1 != pos { OtherIsNoNop(input, pos, Blank); }
      var p2 := if Is(input, p1, Comment) then p1 + 1 else p1;
      if p2 != p1 { OtherIsNoNop(input, p1, Comment); }
      OtherIsNoNop(input, p2, Newline);
      if Is(input, p2 + 1, Blank) { OtherIsNoNop(input, p2 + 1, Blank); }
      EolFree(input, if Is(input, p2 + 1, Blank) then p2 + 2 else p2 + 1);
    }
  }

  lemma {:induction false} RestFree(input: seq<Lexem>, pos: nat)
    requires pos <= |input| && RestOk(input, pos)
    ensures NopFree(input, pos, |input|)
    decreases |input| - pos
  {
    hide LineEnd, EolEnd;
    var p := LineEnd(input, pos);
    if p.Some? {
      LineFree(input, pos);
      EolFree(input, p.value);
      RestFree(input, EolEnd(input, p.value).value);
    }
  }

  /** `nop` has a rule in the lexer but no production: no accepted program contains it. */
  lemma NopRefused(input: seq<Lexem>)
    requires Accepted(input)
    ensures NopFree(input, 0, |input|)
  {
    hide Name, Is, LineEnd, EolEnd;
    var p0 := if Is(input, 0, Comment) then 1 else 0;
    if p0 == 1 { OtherIsNoNop(input, 0, Comment); }
    var p1 := LineEnd(input, p0);
    if p1.Some? { LineFree(input, p0); }
    var p2 := if p1.Some? then p1.value else p0;
    EolFree(input, p2);
    RestFree(input, EolEnd(input, p2).value);
  }

  // ----- label resolution -----

  predicate IsJump(line: Line) {
    line.InsnLine? && TypeOf(line.insn) in {TYPE_BRANCH, TYPE_JAL, TYPE_JALR}
  }

  predicate Defines(line: Line, name: string) {
    line.LabelLine? && line.name == name
  }

  /** The last definition of a label. */
  function LastDef(lines: seq<Line>, name: string): (r: Option<nat>)
    ensures r.Some? ==> r.value < |lines| && Defines(lines[r.value], name)
    ensures r.Some? ==> forall k :: r.value < k < |lines| ==> !Defines(lines[k], name)
    ensures r.None? ==> forall k :: 0 <= k < |lines| ==> !Defines(lines[k], name)
  {
    if lines == [] then None
    else if Defines(lines[|lines| - 1], name) then Some(|lines| - 1)
    else LastDef(lines[..|lines| - 1], name)
  }

  predicate Resolvable(lines: seq<Line>, line: Line) {
    IsJump(line) ==> LastDef(lines, line.target).Some?
  }

  /** The line with its jump distance filled in. */
  function Resolved(lines: seq<Line>, line: Line): Line {
    if IsJump(line) && Resolvable(lines, line)
    then line.(imm := lines[LastDef(lines, line.target).value].addr - line.addr)
    else line
  }

  /** The program after the pass over the first n lines. */
  function ResolveUpTo(lines: seq<Line>, n: nat): (r: seq<Line>)
    requires n <= |lines|
    ensures |r| == |lines|
    ensures forall k :: 0 <= k < |lines| ==> r[k] == if k < n then Resolved(lines, lines[k]) else lines[k]
  {
    seq(|lines|, k requires 0 <= k < |lines| => if k < n then Resolved(lines, lines[k]) else lines[k])
  }

  /** The first line that jumps to an undefined label, or the number of lines. */
  function FirstUnresolvable(lines: seq<Line>, from: nat): (n: nat)
    requires from <= |lines|
    ensures from <= n <= |lines|
    ensures forall k :: from <= k < n ==> Resolvable(lines, lines[k])
    ensures n < |lines| ==> !Resolvable(lines, lines[n])
    decreases |lines| - from
  {
    if from == |lines| || !Resolvable(lines, lines[from]) then from else FirstUnresolvable(lines, from + 1)
  }

  /** The pass in terms of mnemonics and labels alone: it succeeds exactly when every branch, JAL and
      JALR (or mnemonic without a code, which counts as JALR) names a label that is defined. */
  lemma PassExact(lines: seq<Line>)
    ensures FirstUnresolvable(lines, 0) == |lines| <==> forall k :: 0 <= k < |lines| ==>
      (lines[k].InsnLine? && lines[k].insn in {BEQ, BNE, BLT, BGE, BLTU, BGEU, JAL, JALR, UNKNOWN} ==>
        exists d :: 0 <= d < |lines| && lines[d].LabelLine? && lines[d].name == lines[k].target)
  {
    hide LastDef, Resolvable, IsJump;
    forall k | 0 <= k < |lines|
      ensures Resolvable(lines, lines[k]) <==>
        (lines[k].InsnLine? && lines[k].insn in {BEQ, BNE, BLT, BGE, BLTU, BGEU, JAL, JALR, UNKNOWN} ==>
          exists d :: 0 <= d < |lines| && lines[d].LabelLine? && lines[d].name == lines[k].target)
    {
      JumpMnemonics(lines[k]);
      ResolvableExact(lines, lines[k]);
    }
  }

  /** Each of these gets the distance to the last definition of its label. */
  lemma JumpResolved(lines: seq<Line>, k: nat, d: nat)
    requires k < |lines| && lines[k].InsnLine?
    requires lines[k].insn in {BEQ, BNE, BLT, BGE, BLTU, BGEU, JAL, JALR, UNKNOWN}
    requires d < |lines| && lines[d].LabelLine? && lines[d].name == lines[k].target
    requires forall e :: d < e < |lines| && lines[e].LabelLine? ==> lines[e].name != lines[k].target
    ensures ResolveUpTo(lines, |lines|)[k] == lines[k].(imm := lines[d].addr - lines[k].addr)
  {
    hide LastDef;
    JumpMnemonics(lines[k]);
    LastIs(lines, lines[k].target, d);
  }

  /** No other line changes. */
  lemma OtherKept(lines: seq<Line>, k: nat)
    requires k < |lines|
    requires lines[k].LabelLine? || lines[k].insn !in {BEQ, BNE, BLT, BGE, BLTU, BGEU, JAL, JALR, UNKNOWN}
    ensures ResolveUpTo(lines, |lines|)[k] == lines[k]
  {
    JumpMnemonics(lines[k]);
  }

  lemma JumpMnemonics(line: Line)
    ensures IsJump(line) <==>
      line.InsnLine? && line.insn in {BEQ, BNE, BLT, BGE, BLTU, BGEU, JAL, JALR, UNKNOWN}
  {
  }

  lemma ResolvableExact(lines: seq<Line>, line: Line)
    ensures Resolvable(lines, line) <==>
      (IsJump(line) ==> exists d :: 0 <= d < |lines| && lines[d].LabelLine? && lines[d].name == line.target)
  {
    hide LastDef;
    if IsJump(line) {
      var r := LastDef(lines, line.target);
      assert r.Some? ==> Defines(lines[r.value], line.target);
      assert forall d :: 0 <= d < |lines| ==>
        (Defines(lines[d], line.target) <==> lines[d].LabelLine? && lines[d].name == line.target);
    }
  }

  lemma LastIs(lines: seq<Line>, name: string, d: nat)
    requires d < |lines| && Defines(lines[d], name) && forall e :: d < e < |lines| ==> !Defines(lines[e], name)
    ensures LastDef(lines, name) == Some(d)
  {
    hide LastDef;
    var r := LastDef(lines, name);
    assert r.Some?;
  }

  lemma NothingDefined(lines: seq<Line>, name: string)
    ensures LastDef(lines[..0], name) == None
  {
  }

  lemma OneMoreLine(lines: seq<Line>, j: nat, name: string)
    requires j < |lines|
    ensures LastDef(lines[..j + 1], name) == if Defines(lines[j], name) then Some(j) else LastDef(lines[..j], name)
  {
    assert lines[..j + 1][..j] == lines[..j];
  }

  /** The inner loop: every matching label overwrites the distance, so the last one counts. */
  method FindLabel(lines: array<Line>, i: nat, ghost was: seq<Line>) returns (found: bool)
    requires i < lines.Length == |was| && lines[..] == ResolveUpTo(was, i) && IsJump(was[i])
    modifies lines
    ensures found == Resolvable(was, was[i])
    ensures lines[..] == ResolveUpTo(was, if found then i + 1 else i)
  {
    hide LastDef;
    found := false;
    var line := lines[i];
    NothingDefined(was, line.target);
    for j := 0 to lines.Length
      invariant forall k :: 0 <= k < lines.Length && k != i ==> lines[k] == ResolveUpTo(was, i)[k]
      invariant found == LastDef(was[..j], line.target).Some?
      invariant lines[i] ==
        if found then line.(imm := was[LastDef(was[..j], line.target).value].addr - line.addr) else line
    {
      OneMoreLine(was, j, line.target);
      var line2 := lines[j];
      assert Defines(line2, line.target) == Defines(was[j], line.target);
      if line2.LabelLine? && line2.name == line.target {
        lines[i] := line.(imm := line2.addr - line.addr);
        found := true;
      }
    }
    assert was[..lines.Length] == was;
    assert lines[..] == ResolveUpTo(was, if found then i + 1 else i);
  }

  /** asm_line_update_adress: every jump gets its distance, up to the first one whose label is
      defined nowhere; exactly then the pass fails. */
  method UpdateAddress(lines: array<Line>) returns (ok: bool)
    modifies lines
    ensures ok == forall k :: 0 <= k < lines.Length ==> Resolvable(old(lines[..]), old(lines[..])[k])
    ensures lines[..] == ResolveUpTo(old(lines[..]), FirstUnresolvable(old(lines[..]), 0))
    ensures ok <==> FirstUnresolvable(old(lines[..]), 0) == lines.Length
  {
    ghost var was := lines[..];
    for i := 0 to lines.Length
      invariant lines[..] == ResolveUpTo(was, i)
      invariant FirstUnresolvable(was, 0) == FirstUnresolvable(was, i)
      invariant forall k :: 0 <= k < i ==> Resolvable(was, was[k])
    {
      assert lines[i] == was[i];
      if IsJump(lines[i]) {
        var labelFound := FindLabel(lines, i, was);
        if !labelFound {
          assert !Resolvable(was, was[i]);
          return false;
        }
      } else {
        assert ResolveUpTo(was, i + 1) == ResolveUpTo(was, i);
      }
    }
    return true;
  }

  // ----- the emitted image -----

  /** An instruction line's word stands in the image after the words of the lines before it. */
  lemma {:induction false} ImageAt(lines: seq<Line>, k: nat)
    requires k < |lines| && lines[k].InsnLine?
    ensures Count(lines[..k]) < |Image(lines)| && Image(lines)[Count(lines[..k])] == Encode(lines[k])
  {
    hide Encode;
    var before := lines[..|lines| - 1];
    if k == |lines| - 1 {
    } else {
      ImageAt(before, k);
      assert before[..k] == lines[..k];
    }
  }

  lemma {:induction false} SameCount(a: seq<Line>, b: seq<Line>)
    requires |a| == |b| && forall k :: 0 <= k < |a| ==> a[k].InsnLine? == b[k].InsnLine?
    ensures Count(a) == Count(b)
  {
    if a != [] {
      SameCount(a[..|a| - 1], b[..|b| - 1]);
    }
  }

  /** The instruction line whose word comes first after line d. */
  predicate FirstWordAfter(lines: seq<Line>, d: nat, e: nat) {
    d < e < |lines| && lines[e].InsnLine? && forall k :: d < k < e ==> lines[k].LabelLine?
  }

  lemma {:induction false} SameIndex(lines: seq<Line>, d: nat, e: nat)
    requires FirstWordAfter(lines, d, e) && lines[d].LabelLine?
    ensures Count(lines[..e]) == Count(lines[..d])
    decreases e
  {
    assert lines[..e][..e - 1] == lines[..e - 1];
    if e > d + 1 {
      SkipOneLabel(lines, d, e);
    }
  }

  lemma SkipOneLabel(lines: seq<Line>, d: nat, e: nat)
    requires d + 1 < e <= |lines| && forall k :: d <= k < e ==> lines[k].LabelLine?
    ensures Count(lines[..e]) == Count(lines[..d])
    decreases e
  {
    assert lines[..e][..e - 1] == lines[..e - 1];
    if e - 1 == d + 1 {
      assert lines[..d + 1][..d] == lines[..d];
    } else {
      SkipOneLabel(lines, d, e - 1);
    }
  }

  /** Every label is followed by a word, if only by the closing jump. */
  lemma WordAfter(lines: seq<Line>, d: nat) returns (e: nat)
    requires d < |lines| - 1 && lines[|lines| - 1].InsnLine?
    ensures FirstWordAfter(lines, d, e)
  {
    e := d + 1;
    while lines[e].LabelLine?
      invariant d < e < |lines| && forall k :: d < k < e ==> lines[k].LabelLine?
      decreases |lines| - e
    {
      e := e + 1;
    }
  }

  predicate WordIs(lines: seq<Line>, index: nat, line: Line) {
    line.InsnLine? && index < |Image(lines)| && Image(lines)[index] == Encode(line)
  }

  lemma WordOfLine(lines: seq<Line>, out: seq<Line>, k: nat)
    requires out == ResolveUpTo(lines, |lines|) && k < |lines| && lines[k].InsnLine?
    ensures WordIs(out, Count(lines[..k]), out[k])
  {
    hide Encode;
    SameCount(out[..k], lines[..k]);
    ImageAt(out, k);
  }

  lemma ProgramEnds(input: seq<Lexem>)
    ensures var lines := Program(input); var n := |lines| - 1;
      && n >= 1 && lines[0] == LabelLine(PROG_START, 0)
      && lines[n] == InsnLine(JAL, 6, 0, 0, 0, PROG_START, 4 * Count(lines[..n]))
      && Count(lines) == Count(lines[..n]) + 1
  {
    hide Translate;
    var lines := Program(input);
    var body := [LabelLine(PROG_START, 0)] + Translate(input, 0, 0);
    assert lines[..|lines| - 1] == body;
  }

  /** After a successful pass, in the emitted image: a jump is word number i, the first word after
      the last definition of its label is number j, and the distance it carries is 4 * (j - i). */
  lemma LabelsResolved(input: seq<Lexem>, lines: seq<Line>, out: seq<Line>, k: nat) returns (d: nat, e: nat)
    requires lines == Program(input) && out == ResolveUpTo(lines, |lines|) && FirstUnresolvable(lines, 0) == |lines|
    requires k < |lines| && lines[k].InsnLine?
    requires lines[k].insn in {BEQ, BNE, BLT, BGE, BLTU, BGEU, JAL, JALR}
    ensures d < |lines| && lines[d].LabelLine? && lines[d].name == lines[k].target && FirstWordAfter(lines, d, e)
    ensures forall f :: d < f < |lines| && lines[f].LabelLine? ==> lines[f].name != lines[k].target
    ensures var i, j := Count(lines[..k]), Count(lines[..e]);
      WordIs(out, i, out[k]) && WordIs(out, j, out[e]) && out[k] == lines[k].(imm := 4 * (j - i))
  {
    hide Encode, Program, Image;
    ProgramAddressed(input);
    ProgramEnds(input);
    JumpMnemonics(lines[k]);
    d := LastDef(lines, lines[k].target).value;
    e := WordAfter(lines, d);
    SameIndex(lines, d, e);
    WordOfLine(lines, out, k);
    WordOfLine(lines, out, e);
  }

  /** The jump that closes the program goes back to word 0, unless the program redefines the
      start label; so its distance is negative as soon as the program has another word. */
  lemma ClosingJump(input: seq<Lexem>, lines: seq<Line>)
    requires lines == Program(input)
    requires forall k :: 0 < k < |lines| ==> !Defines(lines[k], PROG_START)
    ensures IsJump(lines[|lines| - 1])
    ensures Resolved(lines, lines[|lines| - 1]) == lines[|lines| - 1].(imm := -4 * (Count(lines) - 1))
  {
    hide Program;
    ProgramEnds(input);
    assert Defines(lines[0], PROG_START);
    assert LastDef(lines, PROG_START) == Some(0);
  }
}
