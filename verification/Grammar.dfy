/** Lexemes, the terminals and productions of the assembly language, and what each production
    translates to (compilateur/src/parser.c, the tables of compilateur/src/asm_line.c). */
module Grammar {
  import opened AsmLine
  import opened Options

  datatype Lexem = Lexem(kind: string, value: string, line: int, column: int)

  datatype Terminal =
    | Blank | Comma | Comment | Newline | LabelDef
    | Register | Integer | LabelRef | ParenLeft | ParenRight
    | Insn(m: Mnemonic)
    | PseudoJ | PseudoLi | PseudoMv | PseudoBle

  function MnemonicName(m: Mnemonic): string {
    match m
    case NOP => "NOP" case ADD => "ADD" case AND => "AND" case SLL => "SLL" case SRL => "SRL"
    case OR => "OR" case XOR => "XOR" case SLTU => "SLTU" case SLT => "SLT" case SRA => "SRA" case SUB => "SUB"
    case ADDI => "ADDI" case ANDI => "ANDI" case SLLI => "SLLI" case SRLI => "SRLI" case ORI => "ORI"
    case XORI => "XORI" case SLTIU => "SLTIU" case SLTI => "SLTI" case SRAI => "SRAI"
    case BEQ => "BEQ" case BNE => "BNE" case BGEU => "BGEU" case BGE => "BGE" case BLTU => "BLTU" case BLT => "BLT"
    case LUI => "LUI" case AUIPC => "AUIPC" case LBU => "LBU" case LHU => "LHU" case LB => "LB" case LH => "LH"
    case LW => "LW" case SB => "SB" case SW => "SW" case SH => "SH" case JAL => "JAL" case JALR => "JALR"
    case UNKNOWN => "?"
  }

  function Name(t: Terminal): string {
    match t
    case Blank => "blank"
    case Comma => "comma"
    case Comment => "comment"
    case Newline => "newline"
    case LabelDef => "label"
    case Register => "symbole::register"
    case Integer => "integer::dec"
    case LabelRef => "symbole::label"
    case ParenLeft => "paren::left"
    case ParenRight => "paren::right"
    case Insn(m) => "insn::" + MnemonicName(m)
    case PseudoJ => "unsinsn::J"
    case PseudoLi => "unsinsn::LI"
    case PseudoMv => "unsinsn::MV"
    case PseudoBle => "unsinsn::BLE"
  }

  /** next_lexem_is: the terminal's name is a prefix of the lexeme's type. */
  predicate Is(input: seq<Lexem>, pos: nat, t: Terminal): (r: bool)
    ensures r ==> pos < |input|
  {
    pos < |input| && Name(t) <= input[pos].kind
  }

  // ----- name tables -----

  const MNEMONICS: seq<Mnemonic> :=
    [NOP, ADD, AND, SLL, SRL, OR, XOR, SLTU, SLT, SRA, SUB, ADDI, ANDI, SLLI, SRLI, ORI, XORI, SLTIU, SLTI, SRAI,
     BEQ, BNE, BGEU, BGE, BLTU, BLT, LUI, AUIPC, LBU, LHU, LB, LH, LW, SB, SW, SH, JAL, JALR]

  function FindInsn(kind: string, ms: seq<Mnemonic>): Mnemonic {
    if ms == [] then UNKNOWN
    else if kind == Name(Insn(ms[0])) then ms[0]
    else FindInsn(kind, ms[1..])
  }

  /** str2insn */
  function Str2Insn(kind: string): Mnemonic {
    FindInsn(kind, MNEMONICS)
  }

  function Aliases(r: nat): seq<string> {
    match r
    case 0 => ["r0", "zero"] case 1 => ["r1", "ra"] case 2 => ["r2", "sp"]
    case 3 => ["r3"] case 4 => ["r4"] case 5 => ["r5"] case 6 => ["r6"] case 7 => ["r7"]
    case 8 => ["r8", "s0"] case 9 => ["r9", "s1"] case 10 => ["r10", "a0"] case 11 => ["r11", "a1"]
    case 12 => ["r12", "a2"] case 13 => ["r13", "a3"] case 14 => ["r14", "a4"] case 15 => ["r15", "a5"]
    case 16 => ["r16", "a6"] case 17 => ["r17", "a7"] case 18 => ["r18"] case 19 => ["r19"]
    case 20 => ["r20"] case 21 => ["r21"] case 22 => ["r22"] case 23 => ["r23"] case 24 => ["r24"]
    case 25 => ["r25"] case 26 => ["r26"] case 27 => ["r27"] case 28 => ["r28"] case 29 => ["r29"]
    case 30 => ["r30"] case 31 => ["r31"]
    case _ => []
  }

  function FindReg(name: string, r: nat): int
    requires r <= 32
    decreases 32 - r
  {
    if r == 32 then -1 else if name in Aliases(r) then r else FindReg(name, r + 1)
  }

  /** str2reg */
  function Str2Reg(name: string): int {
    FindReg(name, 0)
  }

  function Digits(s: string, acc: int): int {
    if s != "" && '0' <= s[0] <= '9' then Digits(s[1..], 10 * acc + (s[0] as int - '0' as int)) else acc
  }

  /** atoi, without overflow */
  function Atoi(s: string): int {
    if s != "" && s[0] == '-' then -Digits(s[1..], 0)
    else if s != "" && s[0] == '+' then Digits(s[1..], 0)
    else Digits(s, 0)
  }

  // ----- productions -----

  datatype Alt = RegReg | Imm | Branch | Load | Store | Jal | Jalr | Upper | J | Li | Mv

  function Heads(a: Alt): seq<Terminal> {
    match a
    case RegReg => [Insn(ADD), Insn(AND), Insn(SLL), Insn(SRL), Insn(OR), Insn(XOR), Insn(SLT), Insn(SLTU),
      Insn(SRA), Insn(SUB)]
    case Imm => [Insn(ADDI), Insn(ANDI), Insn(SLLI), Insn(SRLI), Insn(ORI), Insn(XORI), Insn(SLTI), Insn(SLTIU),
      Insn(SRAI)]
    case Branch => [Insn(BEQ), Insn(BNE), Insn(BLT), Insn(BGE), Insn(BLTU), Insn(BGEU)]
    case Load => [Insn(LB), Insn(LH), Insn(LW), Insn(LBU), Insn(LHU)]
    case Store => [Insn(SB), Insn(SH), Insn(SW)]
    case Jal => [Insn(JAL)]
    case Jalr => [Insn(JALR)]
    case Upper => [Insn(LUI), Insn(AUIPC)]
    case J => [PseudoJ]
    case Li => [PseudoLi]
    case Mv => [PseudoMv]
  }

  function Tail(a: Alt): seq<Terminal> {
    match a
    case RegReg => [Blank, Register, Comma, Register, Comma, Register]
    case Imm => [Blank, Register, Comma, Register, Comma, Integer]
    case Branch => [Blank, Register, Comma, Register, Comma, LabelRef]
    case Load => [Blank, Register, Comma, Integer, ParenLeft, Register, ParenRight]
    case Store => [Blank, Register, Comma, Integer, ParenLeft, Register, ParenRight]
    case Jal => [Blank, Register, Comma, LabelRef]
    case Jalr => [Blank, Register, Comma, Register, Comma, LabelRef]
    case Upper => [Blank, Register, Comma, Integer]
    case J => [Blank, LabelRef]
    case Li => [Blank, Register, Comma, Integer]
    case Mv => [Blank, Register, Comma, Register]
  }

  predicate IsHead(input: seq<Lexem>, pos: nat, a: Alt) {
    exists k :: 0 <= k < |Heads(a)| && Is(input, pos, Heads(a)[k])
  }

  predicate Follows(input: seq<Lexem>, pos: nat, ts: seq<Terminal>) {
    pos + |ts| <= |input| && forall k :: 0 <= k < |ts| ==> Is(input, pos + k, ts[k])
  }

  /** The terminals one by one. */
  lemma FollowsEach(input: seq<Lexem>, pos: nat, ts: seq<Terminal>)
    requires 2 <= |ts| <= 7
    ensures Follows(input, pos, ts) <==>
            && Is(input, pos, ts[0]) && Is(input, pos + 1, ts[1])
            && (|ts| > 2 ==> Is(input, pos + 2, ts[2])) && (|ts| > 3 ==> Is(input, pos + 3, ts[3]))
            && (|ts| > 4 ==> Is(input, pos + 4, ts[4])) && (|ts| > 5 ==> Is(input, pos + 5, ts[5]))
            && (|ts| > 6 ==> Is(input, pos + 6, ts[6]))
  {
    hide Name;
    if Follows(input, pos, ts) {
      forall k | 0 <= k < |ts| ensures Is(input, pos + k, ts[k]) {}
      assert Is(input, pos + 0, ts[0]) && Is(input, pos + 1, ts[1]);
    } else {
      assert Is(input, pos + (|ts| - 1), ts[|ts| - 1]) ==> pos + |ts| <= |input|;
    }
  }

  predicate Applies(input: seq<Lexem>, pos: nat, a: Alt) {
    IsHead(input, pos, a) && Follows(input, pos + 1, Tail(a))
  }

  /** How many lexemes the production takes. */
  function Length(a: Alt): nat {
    1 + |Tail(a)|
  }

  function Rv(input: seq<Lexem>, pos: nat): int
    requires pos < |input|
  {
    Str2Reg(input[pos].value)
  }

  function Nop(addr: int): Line {
    InsnLine(NOP, 0, 0, 0, 0, "", addr)
  }

  /** The lines of one instruction; a branch is followed by two NOPs. */
  function Lines(a: Alt, input: seq<Lexem>, pos: nat, addr: int): seq<Line>
    requires pos + Length(a) <= |input|
  {
    var m := Str2Insn(input[pos].kind);
    match a
    case RegReg => [InsnLine(m, Rv(input, pos + 2), Rv(input, pos + 4), Rv(input, pos + 6), 0, "", addr)]
    case Imm => [InsnLine(m, Rv(input, pos + 2), Rv(input, pos + 4), 0, Atoi(input[pos + 6].value), "", addr)]
    case Branch =>
      [InsnLine(m, 0, Rv(input, pos + 2), Rv(input, pos + 4), 0, input[pos + 6].value, addr), Nop(addr + 4),
        Nop(addr + 8)]
    case Load => [InsnLine(m, Rv(input, pos + 2), Rv(input, pos + 6), 0, Atoi(input[pos + 4].value), "", addr)]
    case Store => [InsnLine(m, 0, Rv(input, pos + 6), Rv(input, pos + 2), Atoi(input[pos + 4].value), "", addr)]
    case Jal => [InsnLine(m, Rv(input, pos + 2), 0, 0, 0, input[pos + 4].value, addr)]
    case Jalr => [InsnLine(m, Rv(input, pos + 2), Rv(input, pos + 4), 0, 0, input[pos + 6].value, addr)]
    case Upper => [InsnLine(m, Rv(input, pos + 2), 0, 0, Atoi(input[pos + 4].value), "", addr)]
    case J => [InsnLine(JAL, 6, 0, 0, 0, input[pos + 2].value, addr)]
    case Li => [InsnLine(ADDI, Rv(input, pos + 2), 0, 0, Atoi(input[pos + 4].value), "", addr)]
    case Mv => [InsnLine(ADD, Rv(input, pos + 2), Rv(input, pos + 4), 0, 0, "", addr)]
  }

  /** The pseudo-instructions; BLE is recognised and refused. */
  function PseudoAlt(input: seq<Lexem>, pos: nat): (r: Option<Alt>)
    ensures r.Some? ==> Applies(input, pos, r.value) && pos + Length(r.value) <= |input|
  {
    if Applies(input, pos, J) then Some(J)
    else if Applies(input, pos, Li) then Some(Li)
    else if Applies(input, pos, Mv) then Some(Mv)
    else None
  }

  /** The production of an instruction: the first that applies, in the parser's order. */
  function FirstAlt(input: seq<Lexem>, pos: nat): (r: Option<Alt>)
    ensures r.Some? ==> Applies(input, pos, r.value) && pos + Length(r.value) <= |input|
  {
    if Applies(input, pos, RegReg) then Some(RegReg)
    else if Applies(input, pos, Imm) then Some(Imm)
    else if Applies(input, pos, Branch) then Some(Branch)
    else if Applies(input, pos, Load) then Some(Load)
    else if Applies(input, pos, Store) then Some(Store)
    else if Applies(input, pos, Jal) then Some(Jal)
    else if Applies(input, pos, Jalr) then Some(Jalr)
    else if Applies(input, pos, Upper) then Some(Upper)
    else PseudoAlt(input, pos)
  }

  /** A label definition without its final character, the colon. */
  function LabelName(value: string): string {
    if value == "" then "" else value[..|value| - 1]
  }

  predicate IsLayout(input: seq<Lexem>, pos: nat) {
    Is(input, pos, Blank) || Is(input, pos, Comment) || Is(input, pos, Newline)
  }

  // ----- the translation -----

  /** The lines of a program text from lexeme `pos` on: instructions and labels in order, layout
      skipped, addresses counted up by 4 for each instruction line. */
  function Translate(input: seq<Lexem>, pos: nat, addr: int): seq<Line>
    requires pos <= |input|
    decreases |input| - pos
  {
    if pos == |input| then []
    else if Is(input, pos, LabelDef) then
      [LabelLine(LabelName(input[pos].value), addr)] + Translate(input, pos + 1, addr)
    else
      var alt := FirstAlt(input, pos);
      if alt.Some? && !IsLayout(input, pos) then
        var lines := Lines(alt.value, input, pos, addr);
        lines + Translate(input, pos + Length(alt.value), addr + 4 * |lines|)
      else Translate(input, pos + 1, addr)
  }

  const PROG_START := "PROG_START"

  /** The whole program: a label at its start and a jump back to it at its end. */
  function Program(input: seq<Lexem>): seq<Line> {
    var body := [LabelLine(PROG_START, 0)] + Translate(input, 0, 0);
    body + [InsnLine(JAL, 6, 0, 0, 0, PROG_START, 4 * Count(body))]
  }

  // ----- the syntax -----

  /** Where <eol> ends: ([blank] [comment] newline [blank])*. */
  function EolEnd(input: seq<Lexem>, pos: nat): (r: Option<nat>)
    requires pos <= |input|
    ensures r.Some? ==> pos <= r.value <= |input|
    decreases |input| - pos
  {
    if !IsLayout(input, pos) then Some(pos)
    else
      var p1 := if Is(input, pos, Blank) then pos + 1 else pos;
      var p2 := if Is(input, p1, Comment) then p1 + 1 else p1;
      if !Is(input, p2, Newline) then None
      else EolEnd(input, if Is(input, p2 + 1, Blank) then p2 + 2 else p2 + 1)
  }

  /** Where <code-line> ends: an instruction, an instruction and a label, or a label. */
  function LineEnd(input: seq<Lexem>, pos: nat): (r: Option<nat>)
    requires pos <= |input|
    ensures r.Some? ==> pos < r.value <= |input|
  {
    if Is(input, pos, LabelDef) then Some(pos + 1)
    else
      var alt := FirstAlt(input, pos);
      if alt.None? then None
      else
        var p := pos + Length(alt.value);
        Some(if Is(input, p, LabelDef) then p + 1 else p)
  }

  /** (<code-line> <eol>)* up to the end of the text. */
  predicate RestOk(input: seq<Lexem>, pos: nat)
    requires pos <= |input|
    decreases |input| - pos
  {
    var p := LineEnd(input, pos);
    if p.None? then pos == |input|
    else
      var q := EolEnd(input, p.value);
      q.Some? && RestOk(input, q.value)
  }

  /** <code> ::= [comment] [<code-line>] <eol> (<code-line> <eol>)* */
  predicate Accepted(input: seq<Lexem>) {
    var p0 := if Is(input, 0, Comment) then 1 else 0;
    var p1 := LineEnd(input, p0);
    var q := EolEnd(input, if p1.Some? then p1.value else p0);
    q.Some? && RestOk(input, q.value)
  }

  // ----- kinds of lexemes -----

  /** The lexeme is a mnemonic. */
  predicate InsnKind(kind: string) {
    "insn::" <= kind || "unsinsn::" <= kind
  }

  lemma HeadIsInsn(input: seq<Lexem>, pos: nat, a: Alt)
    requires IsHead(input, pos, a)
    ensures InsnKind(input[pos].kind)
  {
    hide Name;
    var k :| 0 <= k < |Heads(a)| && Is(input, pos, Heads(a)[k]);
    HeadTerminal(a, k);
    NameOfHead(Heads(a)[k]);
  }

  lemma HeadTerminal(a: Alt, k: nat)
    requires k < |Heads(a)|
    ensures Heads(a)[k].Insn? || Heads(a)[k] in {PseudoJ, PseudoLi, PseudoMv, PseudoBle}
  {
  }

  lemma NameOfHead(t: Terminal)
    requires t.Insn? || t in {PseudoJ, PseudoLi, PseudoMv, PseudoBle}
    ensures "insn::" <= Name(t) || "unsinsn::" <= Name(t)
  {
  }

  lemma OtherIsNoInsn(input: seq<Lexem>, pos: nat, t: Terminal)
    requires Is(input, pos, t) && !t.Insn? && t !in {PseudoJ, PseudoLi, PseudoMv, PseudoBle}
    ensures !InsnKind(input[pos].kind)
  {
    var kind, name := input[pos].kind, Name(t);
    assert kind[0] == name[0] && kind[2] == name[2];
    assert name[0] != 'u' && (name[0] != 'i' || name[2] != 's');
  }

  lemma LayoutIsNoLabel(input: seq<Lexem>, pos: nat)
    requires IsLayout(input, pos)
    ensures !Is(input, pos, LabelDef)
  {
    var kind := input[pos].kind;
    assert kind[0] == "blank"[0] || kind[0] == "comment"[0] || kind[0] == "newline"[0];
  }

  lemma TranslateInsn(input: seq<Lexem>, pos: nat, addr: int)
    requires FirstAlt(input, pos).Some?
    ensures pos < |input| && !Is(input, pos, LabelDef) && !IsLayout(input, pos)
    ensures var alt := FirstAlt(input, pos).value; var lines := Lines(alt, input, pos, addr);
      Translate(input, pos, addr) == lines + Translate(input, pos + Length(alt), addr + 4 * |lines|)
  {
    hide Name, Is, Lines, FirstAlt;
    HeadIsInsn(input, pos, FirstAlt(input, pos).value);
    forall t | t in {LabelDef, Blank, Comment, Newline} ensures !Is(input, pos, t) {
      if Is(input, pos, t) {
        OtherIsNoInsn(input, pos, t);
      }
    }
  }

  lemma LinesAreInsns(a: Alt, input: seq<Lexem>, pos: nat, addr: int)
    requires pos + Length(a) <= |input|
    ensures forall k :: 0 <= k < |Lines(a, input, pos, addr)| ==> Lines(a, input, pos, addr)[k].InsnLine?
  {
    hide Str2Insn, Str2Reg, Atoi;
  }

  /** Translating one instruction: the same program text, and 4 more for each line. */
  lemma InsnStep(input: seq<Lexem>, before: seq<Line>, pos: nat, addr: int)
    requires FirstAlt(input, pos).Some?
    ensures pos + Length(FirstAlt(input, pos).value) <= |input|
    ensures var alt := FirstAlt(input, pos).value; var lines := Lines(alt, input, pos, addr);
      && before + Translate(input, pos, addr)
         == (before + lines) + Translate(input, pos + Length(alt), addr + 4 * |lines|)
      && Count(before + lines) == Count(before) + |lines|
  {
    hide Is, Lines, FirstAlt, Translate, Tail;
    var alt := FirstAlt(input, pos).value;
    TranslateInsn(input, pos, addr);
    LinesAreInsns(alt, input, pos, addr);
    var lines := Lines(alt, input, pos, addr);
    CountAll(lines);
    CountAppend(before, lines);
    var rest := Translate(input, pos + Length(alt), addr + 4 * |lines|);
    assert before + (lines + rest) == (before + lines) + rest;
  }
}
