/** The recursive-descent parser (compilateur/src/parser.c with the macros of
    compilateur/include/rv32ias/parser.h). The list pointer `*lexems` is the position `pos` in a
    fixed list; `instructions` and `lineAddr` are the other two things the functions change. */
module Parser {
  import opened AsmLine
  import opened Grammar
  import opened Options

  class CodeParser {
    const input: seq<Lexem>
    var pos: nat
    var instructions: seq<Line>
    var lineAddr: int

    constructor (input: seq<Lexem>)
      ensures this.input == input && Valid() && pos == 0 && instructions == [] && lineAddr == 0
    {
      this.input := input;
      pos, instructions, lineAddr := 0, [], 0;
    }

    predicate Valid()
      reads this
    {
      pos <= |input|
    }

    predicate NextLexemIs(t: Terminal)
      reads this
    {
      Is(input, pos, t)
    }

    /** chk_term: capture and consume the terminal, or fail where it is missing. */
    method ChkTerm(t: Terminal) returns (r: Option<string>)
      requires Valid()
      modifies this`pos
      ensures Valid()
      ensures r.Some? == Is(input, old(pos), t)
      ensures r.Some? ==> pos == old(pos) + 1 && r.value == input[old(pos)].value
      ensures r.None? ==> pos == old(pos)
    {
      if !NextLexemIs(t) { return None; }
      r := Some(input[pos].value);
      pos := pos + 1;
    }

    /** The tests on the mnemonic at the start of an alternative, one terminal after the other, and
        str2insn of its type. */
    method ChkHead(a: Alt) returns (r: Option<Mnemonic>)
      requires Valid()
      modifies this`pos
      ensures Valid()
      ensures r.Some? == IsHead(input, old(pos), a)
      ensures r.Some? ==> pos == old(pos) + 1 && r.value == Str2Insn(input[old(pos)].kind)
      ensures r.None? ==> pos == old(pos)
    {
      hide Name, Is, Str2Insn, Heads;
      var heads := Heads(a);
      for k := 0 to |heads|
        invariant pos == old(pos) && forall j :: 0 <= j < k ==> !Is(input, pos, heads[j])
      {
        if NextLexemIs(heads[k]) {
          r := Some(Str2Insn(input[pos].kind));
          pos := pos + 1;
          return;
        }
      }
      return None;
    }

    method AddLine(line: Line)
      modifies this`instructions, this`lineAddr
      ensures instructions == old(instructions) + [line] && lineAddr == old(lineAddr) + 4
    {
      instructions := instructions + [line];
      lineAddr := lineAddr + 4;
    }

    /** What an alternative does: it succeeds exactly when its production applies, and then takes
        the lexemes of the production and adds its lines. Where it fails it may have moved the
        position, nothing else. */
    twostate predicate Parses(a: Alt, ok: bool)
      requires old(Valid())
      reads this
    {
      && Valid()
      && ok == Applies(input, old(pos), a)
      && (!ok ==> instructions == old(instructions) && lineAddr == old(lineAddr))
      && (ok ==>
            var lines := Lines(a, input, old(pos), old(lineAddr));
            && pos == old(pos) + Length(a)
            && instructions == old(instructions) + lines
            && lineAddr == old(lineAddr) + 4 * |lines|)
    }

    method ParseInsnRegreg() returns (r: Option<()>)
      requires Valid()
      modifies this
      ensures Parses(RegReg, r.Some?)
    {
      hide Name, Is, Str2Insn, Str2Reg, Atoi, Heads, IsHead;
      FollowsEach(input, pos + 1, Tail(RegReg));
      var insn :- ChkHead(RegReg);
      var _ :- ChkTerm(Blank);
      var rd :- ChkTerm(Register);
      var _ :- ChkTerm(Comma);
      var rs1 :- ChkTerm(Register);
      var _ :- ChkTerm(Comma);
      var rs2 :- ChkTerm(Register);
      AddLine(InsnLine(insn, Str2Reg(rd), Str2Reg(rs1), Str2Reg(rs2), 0, "", lineAddr));
      return Some(());
    }

    method ParseInsnImm() returns (r: Option<()>)
      requires Valid()
      modifies this
      ensures Parses(Imm, r.Some?)
    {
      hide Name, Is, Str2Insn, Str2Reg, Atoi, Heads, IsHead;
      FollowsEach(input, pos + 1, Tail(Imm));
      var insn :- ChkHead(Imm);
      var _ :- ChkTerm(Blank);
      var rd :- ChkTerm(Register);
      var _ :- ChkTerm(Comma);
      var rs1 :- ChkTerm(Register);
      var _ :- ChkTerm(Comma);
      var imm :- ChkTerm(Integer);
      AddLine(InsnLine(insn, Str2Reg(rd), Str2Reg(rs1), 0, Atoi(imm), "", lineAddr));
      return Some(());
    }

    method ParseInsnBranch() returns (r: Option<()>)
      requires Valid()
      modifies this
      ensures Parses(Branch, r.Some?)
    {
      hide Name, Is, Str2Insn, Str2Reg, Atoi, Heads, IsHead;
      FollowsEach(input, pos + 1, Tail(Branch));
      var insn :- ChkHead(Branch);
      var _ :- ChkTerm(Blank);
      var rs1 :- ChkTerm(Register);
      var _ :- ChkTerm(Comma);
      var rs2 :- ChkTerm(Register);
      var _ :- ChkTerm(Comma);
      var name :- ChkTerm(LabelRef);
      AddLine(InsnLine(insn, 0, Str2Reg(rs1), Str2Reg(rs2), 0, name, lineAddr));
      AddLine(Nop(lineAddr));
      AddLine(Nop(lineAddr));
      return Some(());
    }

    method ParseInsnLoad() returns (r: Option<()>)
      requires Valid()
      modifies this
      ensures Parses(Load, r.Some?)
    {
      hide Name, Is, Str2Insn, Str2Reg, Atoi, Heads, IsHead;
      FollowsEach(input, pos + 1, Tail(Load));
      var insn :- ChkHead(Load);
      var _ :- ChkTerm(Blank);
      var rd :- ChkTerm(Register);
      var _ :- ChkTerm(Comma);
      var imm :- ChkTerm(Integer);
      var _ :- ChkTerm(ParenLeft);
      var rs1 :- ChkTerm(Register);
      var _ :- ChkTerm(ParenRight);
      AddLine(InsnLine(insn, Str2Reg(rd), Str2Reg(rs1), 0, Atoi(imm), "", lineAddr));
      return Some(());
    }

    method ParseInsnStore() returns (r: Option<()>)
      requires Valid()
      modifies this
      ensures Parses(Store, r.Some?)
    {
      hide Name, Is, Str2Insn, Str2Reg, Atoi, Heads, IsHead;
      FollowsEach(input, pos + 1, Tail(Store));
      var insn :- ChkHead(Store);
      var _ :- ChkTerm(Blank);
      var rs2 :- ChkTerm(Register);
      var _ :- ChkTerm(Comma);
      var imm :- ChkTerm(Integer);
      var _ :- ChkTerm(ParenLeft);
      var rs1 :- ChkTerm(Register);
      var _ :- ChkTerm(ParenRight);
      AddLine(InsnLine(insn, 0, Str2Reg(rs1), Str2Reg(rs2), Atoi(imm), "", lineAddr));
      return Some(());
    }

    method ParseInsnJal() returns (r: Option<()>)
      requires Valid()
      modifies this
      ensures Parses(Jal, r.Some?)
    {
      hide Name, Is, Str2Insn, Str2Reg, Atoi, Heads, IsHead;
      FollowsEach(input, pos + 1, Tail(Jal));
      var insn :- ChkHead(Jal);
      var _ :- ChkTerm(Blank);
      var rd :- ChkTerm(Register);
      var _ :- ChkTerm(Comma);
      var name :- ChkTerm(LabelRef);
      AddLine(InsnLine(insn, Str2Reg(rd), 0, 0, 0, name, lineAddr));
      return Some(());
    }

    method ParseInsnJalr() returns (r: Option<()>)
      requires Valid()
      modifies this
      ensures Parses(Jalr, r.Some?)
    {
      hide Name, Is, Str2Insn, Str2Reg, Atoi, Heads, IsHead;
      FollowsEach(input, pos + 1, Tail(Jalr));
      var insn :- ChkHead(Jalr);
      var _ :- ChkTerm(Blank);
      var rd :- ChkTerm(Register);
      var _ :- ChkTerm(Comma);
      var rs1 :- ChkTerm(Register);
      var _ :- ChkTerm(Comma);
      var name :- ChkTerm(LabelRef);
      AddLine(InsnLine(insn, Str2Reg(rd), Str2Reg(rs1), 0, 0, name, lineAddr));
      return Some(());
    }

    method ParseInsnUpper() returns (r: Option<()>)
      requires Valid()
      modifies this
      ensures Parses(Upper, r.Some?)
    {
      hide Name, Is, Str2Insn, Str2Reg, Atoi, Heads, IsHead;
      FollowsEach(input, pos + 1, Tail(Upper));
      var insn :- ChkHead(Upper);
      var _ :- ChkTerm(Blank);
      var rd :- ChkTerm(Register);
      var _ :- ChkTerm(Comma);
      var imm :- ChkTerm(Integer);
      AddLine(InsnLine(insn, Str2Reg(rd), 0, 0, Atoi(imm), "", lineAddr));
      return Some(());
    }

    method ParseUnsninsnJ() returns (r: Option<()>)
      requires Valid()
      modifies this
      ensures Parses(J, r.Some?)
    {
      hide Name, Is, Str2Insn, Str2Reg, Atoi, Heads, IsHead;
      FollowsEach(input, pos + 1, Tail(J));
      var _ :- ChkHead(J);
      var _ :- ChkTerm(Blank);
      var name :- ChkTerm(LabelRef);
      AddLine(InsnLine(JAL, 6, 0, 0, 0, name, lineAddr));
      return Some(());
    }

    method ParseUnsninsnLi() returns (r: Option<()>)
      requires Valid()
      modifies this
      ensures Parses(Li, r.Some?)
    {
      hide Name, Is, Str2Insn, Str2Reg, Atoi, Heads, IsHead;
      FollowsEach(input, pos + 1, Tail(Li));
      var _ :- ChkHead(Li);
      var _ :- ChkTerm(Blank);
      var rd :- ChkTerm(Register);
      var _ :- ChkTerm(Comma);
      var imm :- ChkTerm(Integer);
      AddLine(InsnLine(ADDI, Str2Reg(rd), 0, 0, Atoi(imm), "", lineAddr));
      return Some(());
    }

    method ParseUnsninsnMv() returns (r: Option<()>)
      requires Valid()
      modifies this
      ensures Parses(Mv, r.Some?)
    {
      hide Name, Is, Str2Insn, Str2Reg, Atoi, Heads, IsHead;
      FollowsEach(input, pos + 1, Tail(Mv));
      var _ :- ChkHead(Mv);
      var _ :- ChkTerm(Blank);
      var rd :- ChkTerm(Register);
      var _ :- ChkTerm(Comma);
      var rs1 :- ChkTerm(Register);
      AddLine(InsnLine(ADD, Str2Reg(rd), Str2Reg(rs1), 0, 0, "", lineAddr));
      return Some(());
    }

    /** BLE is recognised, then refused. */
    method ParseUnsninsnBle() returns (r: Option<()>)
      requires Valid()
      modifies this`pos
      ensures Valid() && r.None?
    {
      var _ :- ChkTerm(PseudoBle);
      return None;
    }

    /** What the choice between alternatives does: with one that applies it succeeds and does what
        that alternative does; with none it fails and nothing at all has changed. */
    twostate predicate Takes(alt: Option<Alt>, ok: bool)
      requires old(Valid())
      requires alt.Some? ==> old(pos) + Length(alt.value) <= |input|
      reads this
    {
      && Valid()
      && ok == alt.Some?
      && (alt.None? ==> pos == old(pos) && instructions == old(instructions) && lineAddr == old(lineAddr))
      && (alt.Some? ==>
            var lines := Lines(alt.value, input, old(pos), old(lineAddr));
            && pos == old(pos) + Length(alt.value)
            && instructions == old(instructions) + lines
            && lineAddr == old(lineAddr) + 4 * |lines|)
    }

    /** chk_opt_non_term: on failure the saved position is restored. */
    method ParseUnsninsn() returns (r: Option<()>)
      requires Valid()
      modifies this
      ensures Takes(PseudoAlt(input, old(pos)), r.Some?)
    {
      hide Name, Is, Lines, Applies, Tail;
      var l := pos;
      r := ParseUnsninsnJ();
      if r.Some? { return; } else { pos := l; }
      r := ParseUnsninsnLi();
      if r.Some? { return; } else { pos := l; }
      r := ParseUnsninsnMv();
      if r.Some? { return; } else { pos := l; }
      r := ParseUnsninsnBle();
      pos := l;
    }

    method ParseInsn() returns (r: Option<()>)
      requires Valid()
      modifies this
      ensures Takes(FirstAlt(input, old(pos)), r.Some?)
    {
      hide Name, Is, Lines, Applies, Tail, PseudoAlt;
      var l := pos;
      r := ParseInsnRegreg();
      if r.Some? { return; } else { pos := l; }
      r := ParseInsnImm();
      if r.Some? { return; } else { pos := l; }
      r := ParseInsnBranch();
      if r.Some? { return; } else { pos := l; }
      r := ParseInsnLoad();
      if r.Some? { return; } else { pos := l; }
      r := ParseInsnStore();
      if r.Some? { return; } else { pos := l; }
      r := ParseInsnJal();
      if r.Some? { return; } else { pos := l; }
      r := ParseInsnJalr();
      if r.Some? { return; } else { pos := l; }
      r := ParseInsnUpper();
      if r.Some? { return; } else { pos := l; }
      r := ParseUnsninsn();
    }

    /** What has been translated, then what is left to translate: the same throughout a parse. */
    ghost function Outcome(): seq<Line>
      requires Valid()
      reads this
    {
      instructions + Translate(input, pos, lineAddr)
    }

    /** The address counter counts the instruction lines. */
    ghost predicate Counted()
      reads this
    {
      lineAddr == 4 * Count(instructions)
    }

    method AddLabel(value: string)
      modifies this`instructions
      ensures instructions == old(instructions) + [LabelLine(LabelName(value), lineAddr)]
      ensures old(Counted()) ==> Counted()
    {
      instructions := instructions + [LabelLine(LabelName(value), lineAddr)];
    }

    /** A label definition at the position, if there is one. */
    method ParseLabel()
      requires Valid()
      modifies this`pos, this`instructions
      ensures Valid()
      ensures pos == if Is(input, old(pos), LabelDef) then old(pos) + 1 else old(pos)
      ensures !Is(input, old(pos), LabelDef) ==> instructions == old(instructions)
      ensures Outcome() == old(Outcome()) && (old(Counted()) ==> Counted())
    {
      hide Name, Is, Lines, FirstAlt;
      if NextLexemIs(LabelDef) {
        AddLabel(input[pos].value);
        pos := pos + 1;
        ghost var line := [LabelLine(LabelName(input[pos - 1].value), lineAddr)];
        ghost var rest := Translate(input, pos, lineAddr);
        assert old(instructions) + (line + rest) == (old(instructions) + line) + rest;
      }
    }

    /** <code-line>. An instruction may be followed by a label. */
    method ParseCodeLine() returns (r: Option<()>)
      requires Valid()
      modifies this
      ensures Valid()
      ensures var end := LineEnd(input, old(pos));
        && r.Some? == end.Some?
        && (r.Some? ==> pos == end.value)
        && (r.None? ==> pos == old(pos) && instructions == old(instructions) && lineAddr == old(lineAddr))
      ensures Outcome() == old(Outcome()) && (old(Counted()) ==> Counted())
    {
      hide Name, Is, Lines, FirstAlt, Translate;
      if !NextLexemIs(LabelDef) {
        var _ :- ParseInsn();
        InsnStep(input, old(instructions), old(pos), old(lineAddr));
      }
      ParseLabel();
      return Some(());
    }

    /** Layout lexemes translate to nothing. */
    method Skip()
      requires Valid() && IsLayout(input, pos)
      modifies this`pos
      ensures Valid() && pos == old(pos) + 1 && Outcome() == old(Outcome())
    {
      hide Name, Is, Lines, FirstAlt;
      LayoutIsNoLabel(input, pos);
      pos := pos + 1;
    }

    /** <eol>. */
    method ParseEol() returns (r: Option<()>)
      requires Valid()
      modifies this`pos
      ensures Valid() && instructions == old(instructions) && lineAddr == old(lineAddr)
      ensures r.Some? == EolEnd(input, old(pos)).Some?
      ensures r.Some? ==> pos == EolEnd(input, old(pos)).value && Outcome() == old(Outcome())
    {
      hide Name, Is, Translate;
      while IsLayout(input, pos)
        invariant Valid() && EolEnd(input, pos) == EolEnd(input, old(pos)) && Outcome() == old(Outcome())
        decreases |input| - pos
      {
        if NextLexemIs(Blank) { Skip(); }
        if NextLexemIs(Comment) { Skip(); }
        if !NextLexemIs(Newline) { return None; }
        Skip();
        if NextLexemIs(Blank) { Skip(); }
      }
      return Some(());
    }

    /** The start label, an optional comment, and the first line. */
    method ParseStart()
      requires pos == 0 && instructions == [] && lineAddr == 0
      modifies this
      ensures Valid() && Counted() && Outcome() == [LabelLine(PROG_START, 0)] + Translate(input, 0, 0)
      ensures var p0 := if Is(input, 0, Comment) then 1 else 0; var p1 := LineEnd(input, p0);
        pos == if p1.Some? then p1.value else p0
    {
      hide Name, Is, Translate, LineEnd;
      AddLabel(PROG_START + ":");
      assert LabelName(PROG_START + ":") == PROG_START;
      if NextLexemIs(Comment) { Skip(); }
      var _ := ParseCodeLine();
    }

    /** <code>: the start label, the program, and a jump back to the start. */
    method ParseCode() returns (r: Option<()>)
      requires pos == 0 && instructions == [] && lineAddr == 0
      modifies this
      ensures Valid()
      ensures r.Some? == Accepted(input)
      ensures r.Some? ==> pos == |input| && instructions == Program(input)
    {
      hide Name, Is, Translate, LineEnd, EolEnd;
      ParseStart();
      var _ :- ParseEol();
      var more := ParseCodeLine();
      while more.Some?
        invariant Valid() && Counted() && Outcome() == [LabelLine(PROG_START, 0)] + Translate(input, 0, 0)
        invariant Accepted(input) ==
          if more.Some? then EolEnd(input, pos).Some? && RestOk(input, EolEnd(input, pos).value) else pos == |input|
        decreases |input| - pos, more.Some?
      {
        var _ :- ParseEol();
        more := ParseCodeLine();
      }
      TranslateEnd(input, lineAddr);
      assert pos == |input| ==> instructions == Outcome();
      instructions := instructions + [InsnLine(JAL, 6, 0, 0, 0, PROG_START, lineAddr)];
      if pos == |input| { return Some(()); } else { return None; }
    }

    lemma TranslateEnd(input: seq<Lexem>, addr: int)
      ensures Translate(input, |input|, addr) == []
    {
    }
  }
}
