/** From assembly lines to the processor: the file the writer emits, loaded into the instruction
    memory and run by the pipeline, leaves in registers and memory what the mnemonics denote. */
module EndToEnd {
  import opened Options
  import opened Words
  import opened Binary
  import opened AsmLine
  import opened RoundTrip
  import opened Isa
  import opened Machine
  import opened Stages
  import opened Refinement
  import Grammar
  import Labels
  import Lexer
  import Parser
  import Riscv
  import RuleFile
  import Listings
  import Printing
  import Statements
  import Syntax

  /** The instruction lines alone. */
  function InsnLines(lines: seq<Line>): (r: seq<Line>)
    ensures |r| == Count(lines) && forall k :: 0 <= k < |r| ==> r[k].InsnLine?
  {
    if lines == [] then []
    else InsnLines(lines[..|lines| - 1]) + (if lines[|lines| - 1].InsnLine? then [lines[|lines| - 1]] else [])
  }

  lemma {:induction false} ImageOfInsnLines(lines: seq<Line>, k: nat)
    requires k < Count(lines)
    ensures Image(lines)[k] == Encode(InsnLines(lines)[k])
  {
    hide Encode;
    var before := lines[..|lines| - 1];
    if k < Count(before) {
      ImageOfInsnLines(before, k);
    }
  }

  /** The instruction memory after `$readmemb` of a file: its first 512 words, and zeros after a
      shorter one. */
  function Loaded(text: string): Program {
    var ws := ReadMemB(text);
    if |ws| >= 512 then ws[..512] else ws + seq(512 - |ws|, _ => 0)
  }

  /** A line the processor runs as written. */
  predicate Runs(line: Line) {
    line.InsnLine? && ValidRegs(line) && Supported(line.insn) && Fits(line)
  }

  /** The state after the first k lines, by what their mnemonics denote; None after a fault. */
  function Denoted(ls: seq<Line>, k: int): (r: Option<State>)
    requires k <= |ls| && forall j :: 0 <= j < k ==> Runs(ls[j])
    ensures r.Some? ==> r.value.Valid() && |r.value.mem| == 64
    decreases if k < 0 then 0 else k
  {
    if k <= 0 then Some(Init())
    else
      assert Runs(ls[k - 1]);
      var s := Denoted(ls, k - 1);
      if s.Some? && InRange(Meaning(ls[k - 1]), s.value) then Some(Exec(Meaning(ls[k - 1]), s.value)) else None
  }

  /** Line k writes nothing but zero to x0 and needs nothing that the line before it is still
      loading, unless that is the address of the load itself. */
  predicate SafeLine(ls: seq<Line>, k: nat)
    requires k < |ls| && forall j :: 0 <= j <= k ==> Runs(ls[j])
  {
    assert Runs(ls[k]) && (k > 0 ==> Runs(ls[k - 1]));
    var s := Denoted(ls, k);
    && s.Some?
    && !Spoils(Meaning(ls[k]), s.value)
    && (k > 0 ==> Denoted(ls, k - 1).Some? && !Stalled(Meaning(ls[k]), Meaning(ls[k - 1]), Denoted(ls, k - 1).value))
  }

  /** The first n lines can be run, each as written. */
  predicate Runnable(ls: seq<Line>, n: nat) {
    && n <= |ls|
    && (forall k :: 0 <= k < n ==> Runs(ls[k]))
    && Denoted(ls, n).Some?
    && (forall k :: 0 <= k < n ==> SafeLine(ls, k))
  }

  /** What can be seen without running them: no x0 destination and no use of a register right after
      its load. Accesses outside the memory cannot. */
  lemma RunnableByLooks(ls: seq<Line>, n: nat)
    requires n <= |ls| && (forall k :: 0 <= k < n ==> Runs(ls[k])) && Denoted(ls, n).Some?
    requires forall k :: 0 <= k < n ==> !WritesZero(Meaning(ls[k]))
    requires forall k :: 1 <= k < n ==> !LoadUse(Meaning(ls[k - 1]), Meaning(ls[k]))
    ensures Runnable(ls, n)
  {
    hide Meaning, Denoted;
    forall k | 0 <= k < n ensures SafeLine(ls, k) {
      assert Runs(ls[k]) && !WritesZero(Meaning(ls[k]));
      DenotedPrefix(ls, k, n);
      if k > 0 {
        assert Runs(ls[k - 1]) && !LoadUse(Meaning(ls[k - 1]), Meaning(ls[k]));
        DenotedPrefix(ls, k - 1, n);
      }
    }
  }

  lemma {:induction false} DenotedPrefix(ls: seq<Line>, j: int, k: int)
    requires j <= k <= |ls| && (forall i :: 0 <= i < k ==> Runs(ls[i])) && Denoted(ls, k).Some?
    ensures Denoted(ls, j).Some?
    decreases k - j
  {
    if j < k && k > 0 {
      DenotedPrefix(ls, j, k - 1);
    }
  }

  /** Word k of the program is decoded as line k. */
  predicate Holds(p: Program, ls: seq<Line>) {
    |ls| <= 512 && forall k :: 0 <= k < |ls| ==> ls[k].InsnLine? && p[k] == Encode(ls[k])
  }

  lemma LineDecoded(p: Program, ls: seq<Line>, k: nat)
    requires Holds(p, ls) && k < |ls| && Runs(ls[k])
    ensures Decode(Fetched(p, k)) == Some(Meaning(ls[k])) && Insn(p, k) == Meaning(ls[k])
  {
    hide Encode, Isa.Decode;
    DecodeEncode(ls[k]);
  }

  lemma {:induction false} RunIsDenoted(p: Program, ls: seq<Line>, k: int)
    requires Holds(p, ls) && k <= |ls| && forall j :: 0 <= j < k ==> Runs(ls[j])
    ensures After(p, k) == Denoted(ls, k)
    decreases if k < 0 then 0 else k
  {
    hide Encode, Isa.Decode, Isa.Exec;
    if k > 0 {
      assert Runs(ls[k - 1]);
      RunIsDenoted(p, ls, k - 1);
      LineDecoded(p, ls, k - 1);
    }
  }

  lemma RunnableIsGood(p: Program, ls: seq<Line>, n: nat)
    requires Holds(p, ls) && Runnable(ls, n)
    ensures Good(p, n)
  {
    hide Encode, Isa.Decode, Isa.Exec, Meaning, Runs, Isa.After;
    RunIsDenoted(p, ls, n);
    forall k | 0 <= k < n ensures Safe(p, k) {
      assert SafeLine(ls, k) && Runs(ls[k]);
      LineDecoded(p, ls, k);
      RunIsDenoted(p, ls, k);
      if k > 0 {
        assert Runs(ls[k - 1]);
        LineDecoded(p, ls, k - 1);
        RunIsDenoted(p, ls, k - 1);
      } else {
        NothingBefore(p);
      }
    }
  }

  lemma NothingBefore(p: Program)
    ensures Insn(p, -1) == Nop
  {
    assert Decode(0) == Some(Nop);
  }

  /** Registers after the first t - 4 lines, memory after the first t - 3. */
  predicate Shows(ls: seq<Line>, n: nat, t: nat, r: Cpu)
    requires Runnable(ls, n) && t <= n + 2
  {
    var s4, s3 := Denoted(ls, t - 4), Denoted(ls, t - 3);
    s4.Some? && s3.Some? && r.file.registers == s4.value.regs && r.memory.bytes == s3.value.mem
  }

  lemma HeldProgramRuns(p: Program, ls: seq<Line>, n: nat, m: Cpu, unknowns: seq<Unread>)
    requires m.Valid() && Holds(p, ls) && Runnable(ls, n) && |unknowns| <= n + 2
    ensures Shows(ls, n, |unknowns|, Run(p, m.Reset(), unknowns))
  {
    hide Encode, Isa.Decode, Isa.Exec, Isa.After, Run, Denoted;
    var t := |unknowns|;
    RunnableIsGood(p, ls, n);
    GoodPrefix(p, t - 2, n);
    PipelineRefinesIsa(p, m, unknowns);
    RunIsDenoted(p, ls, t - 4);
    RunIsDenoted(p, ls, t - 3);
  }

  /** The emitted file holds the instruction lines. */
  lemma FileHolds(lines: seq<Line>)
    requires Count(lines) <= 512
    ensures Holds(Loaded(MemFile(Image(lines))), InsnLines(lines))
  {
    hide Encode, ReadMemB, MemFile;
    ReadBack(Image(lines));
    forall k | 0 <= k < Count(lines)
      ensures Loaded(MemFile(Image(lines)))[k] == Encode(InsnLines(lines)[k])
    {
      ImageOfInsnLines(lines, k);
    }
  }

  /** Assemble, load, reset and run: in cycle t the registers are those after the first t - 4
      lines and the memory that after the first t - 3, as long as the first t - 2 lines are
      runnable. What follows them, such as the closing jump, does not matter. */
  lemma AssembledProgramRuns(lines: seq<Line>, n: nat, m: Cpu, unknowns: seq<Unread>)
    requires m.Valid() && Count(lines) <= 512
    requires Runnable(InsnLines(lines), n) && |unknowns| <= n + 2
    ensures Shows(InsnLines(lines), n, |unknowns|, Run(Loaded(MemFile(Image(lines))), m.Reset(), unknowns))
  {
    hide Encode, ReadMemB, MemFile, Image, Loaded, Run, Denoted;
    FileHolds(lines);
    HeldProgramRuns(Loaded(MemFile(Image(lines))), InsnLines(lines), n, m, unknowns);
  }

  /** The jump that closes every program is emitted faithfully exactly when it is the only word:
      its distance is negative otherwise, and jump distances lose their sign. */
  lemma ClosingJumpLost(input: seq<Grammar.Lexem>, lines: seq<Line>)
    requires lines == Grammar.Program(input) && Count(lines) < 0x2000_0000
    requires forall k :: 0 < k < |lines| ==> !Labels.Defines(lines[k], Grammar.PROG_START)
    ensures var jump := Labels.Resolved(lines, lines[|lines| - 1]);
      && jump.InsnLine? && jump.imm == -4 * (Count(lines) - 1)
      && (HardwareImm(jump) == Wrap(jump.imm) <==> Count(lines) == 1)
  {
    hide Grammar.Program, HardwareImm, Count;
    Labels.ProgramEnds(input);
    Labels.ClosingJump(input, lines);
    JalExact(Labels.Resolved(lines, lines[|lines| - 1]));
  }

  /** The lines of a program after label resolution. */
  function Linked(input: seq<Grammar.Lexem>): seq<Line> {
    var lines := Grammar.Program(input);
    Labels.ResolveUpTo(lines, |lines|)
  }

  /** The parser accepts the program and every jump has a label. */
  predicate Assembles(input: seq<Grammar.Lexem>) {
    var lines := Grammar.Program(input);
    Grammar.Accepted(input) && Labels.FirstUnresolvable(lines, 0) == |lines|
  }

  predicate Coded(lines: seq<Line>) {
    forall k :: 0 <= k < |lines| ==> ValidRegs(lines[k])
  }

  /** Parser, label resolution and writer one after the other, and when they succeed. What is written
      for a register without a code is not defined. */
  method Assemble(input: seq<Grammar.Lexem>) returns (ok: bool, text: string)
    ensures ok == Assembles(input)
    ensures ok && Coded(Linked(input)) ==> text == MemFile(Image(Linked(input)))
  {
    hide Grammar.Program, Grammar.Accepted, Image, MemFile;
    text := "";
    var parser := new Parser.CodeParser(input);
    var r := parser.ParseCode();
    if r.None? { return false, text; }
    var instructions := parser.instructions;
    var lines := new Line[|instructions|](i requires 0 <= i < |instructions| => instructions[i]);
    assert lines[..] == instructions;
    ok := Labels.UpdateAddress(lines);
    if !ok { return; }
    var out := lines[..];
    if forall k :: 0 <= k < |out| ==> ValidRegs(out[k]) {
      text := Write(out);
    }
  }

  // ----- printed programs -----

  /** Every branch, JAL and JALR names a label that is there; so does a mnemonic without a code. */
  predicate Links(lines: seq<Line>) {
    forall k :: 0 <= k < |lines| ==>
      (lines[k].InsnLine? && lines[k].insn in {BEQ, BNE, BLT, BGE, BLTU, BGEU, JAL, JALR, UNKNOWN} ==>
        exists d :: 0 <= d < |lines| && lines[d].LabelLine? && lines[d].name == lines[k].target)
  }

  /** A text is assembled exactly when its lexeme types are a program of the grammar and its jumps name
      labels that are there. */
  lemma AssemblesExact(content: string, lexems: seq<Grammar.Lexem>, upto: nat)
    requires upto <= |content| && Lexer.Covers(RuleFile.Shipped(), content, lexems, upto)
    ensures Assembles(lexems) <==> Syntax.Code(Syntax.Kinds(lexems)) && Links(Grammar.Program(lexems))
  {
    hide Lexer.Covers, Grammar.Accepted, Grammar.Program, Syntax.Code, Syntax.Lexed;
    Printing.CoveredKinds(content, lexems, upto);
    Syntax.AcceptedExact(lexems);
    Labels.PassExact(Grammar.Program(lexems));
  }

  predicate Known(line: Line) {
    ValidRegs(line) && (line.InsnLine? ==> line.insn != UNKNOWN)
  }

  predicate AllKnown(lines: seq<Line>) {
    forall k :: 0 <= k < |lines| ==> Known(lines[k])
  }

  lemma DenotesKnown(s: Statements.Stmt, addr: int)
    requires Statements.WellFormed(s)
    ensures AllKnown(Statements.Denotes(s, addr))
  {
  }

  lemma {:induction false} BodyKnown(items: seq<Statements.Item>, addr: int)
    requires Printing.Printable(items)
    ensures AllKnown(Statements.Body(items, addr))
    decreases |items|
  {
    hide Known, Statements.Denotes, Statements.Words, Printing.ItemOk;
    if items != [] {
      var i := items[0];
      assert Printing.ItemOk(i);
      BodyKnown(items[1..], addr + 4 * Statements.Words(i));
      if i.Label? {
        assert Known(LabelLine(i.name, addr)) by { LabelKnown(i.name, addr); }
      } else {
        Printing.ItemWellFormed(i);
        DenotesKnown(i.stmt, addr);
      }
    }
  }

  lemma LabelKnown(name: string, addr: int)
    ensures Known(LabelLine(name, addr))
  {
  }

  lemma WholeKnown(items: seq<Statements.Item>)
    requires Printing.Printable(items)
    ensures AllKnown(Statements.Whole(items))
  {
    hide Statements.Body, Printing.Printable;
    BodyKnown(items, 0);
  }

  /** Resolution changes no mnemonic and no register. */
  lemma {:induction false} SameInsns(lines: seq<Line>, out: seq<Line>)
    requires |lines| == |out| && forall k :: 0 <= k < |lines| ==>
      out[k] == lines[k] || (lines[k].InsnLine? && exists imm :: out[k] == lines[k].(imm := imm))
    ensures Count(lines) == Count(out)
    ensures forall k :: 0 <= k < Count(lines) ==> InsnLines(out)[k].insn == InsnLines(lines)[k].insn
    decreases |lines|
  {
    if lines != [] {
      SameInsns(lines[..|lines| - 1], out[..|out| - 1]);
    }
  }

  /** The words carry the mnemonics of the lines, read by the manual's tables. */
  predicate Carries(words: seq<Word>, lines: seq<Line>) {
    |words| == Count(lines) &&
    forall k :: 0 <= k < |words| ==> Listings.MnemonicOf(words[k]) == Some(InsnLines(lines)[k].insn)
  }

  lemma {:induction false} InsnLineKnown(lines: seq<Line>, k: nat)
    requires AllKnown(lines) && k < Count(lines)
    ensures Known(InsnLines(lines)[k])
    decreases |lines|
  {
    hide Known;
    var before := lines[..|lines| - 1];
    if k < Count(before) {
      InsnLineKnown(before, k);
    }
  }

  lemma WordsCarry(lines: seq<Line>, out: seq<Line>)
    requires AllKnown(lines) && AllKnown(out) && out == Labels.ResolveUpTo(lines, |lines|)
    ensures Carries(Image(out), lines)
  {
    hide Encode, Listings.MnemonicOf, AllKnown, Known, Image, Count, InsnLines, Labels.LastDef;
    SameInsns(lines, out);
    forall k | 0 <= k < Count(out) ensures Listings.MnemonicOf(Image(out)[k]) == Some(InsnLines(lines)[k].insn) {
      InsnLineKnown(out, k);
      KnownBack(InsnLines(out)[k]);
      ImageOfInsnLines(out, k);
    }
  }

  lemma KnownBack(line: Line)
    requires Known(line) && line.InsnLine?
    ensures Listings.MnemonicOf(Encode(line)) == Some(line.insn)
  {
    hide Encode, Listings.MnemonicOf;
    Listings.ListedBack(line);
  }

  lemma ResolvedKnown(lines: seq<Line>)
    requires AllKnown(lines)
    ensures AllKnown(Labels.ResolveUpTo(lines, |lines|)) && Coded(Labels.ResolveUpTo(lines, |lines|))
  {
    hide Labels.LastDef;
  }

  /** The text of any statements is assembled exactly when their targets are defined, and into words
      with the mnemonics it spells. */
  lemma TextAssembles(items: seq<Statements.Item>, lexems: seq<Grammar.Lexem>)
    requires Printing.Printable(items) && Grammar.Accepted(lexems)
    requires Grammar.Program(lexems) == Statements.Whole(items)
    ensures Assembles(lexems) <==> Links(Statements.Whole(items))
    ensures Coded(Linked(lexems)) && Carries(Image(Linked(lexems)), Statements.Whole(items))
  {
    hide Grammar.Program, Grammar.Accepted, Statements.Whole, Printing.Printable, Carries, Image, Coded, AllKnown;
    var lines := Statements.Whole(items);
    WholeKnown(items);
    Labels.PassExact(lines);
    ResolvedKnown(lines);
    WordsCarry(lines, Linked(lexems));
  }

  /** What a text becomes when it is that of statements. */
  predicate Meant(items: seq<Statements.Item>, lexems: seq<Grammar.Lexem>, ok: bool, text: string) {
    && Grammar.Program(lexems) == Statements.Whole(items)
    && (ok <==> Links(Statements.Whole(items)))
    && (ok ==> text == MemFile(Image(Linked(lexems))) && Carries(Image(Linked(lexems)), Statements.Whole(items)))
  }

  lemma TextMeant(items: seq<Statements.Item>, lexems: seq<Grammar.Lexem>, upto: nat, ok: bool, text: string)
    requires Printing.Printable(items) && upto <= |Printing.Text(items)|
    requires Lexer.Covers(RuleFile.Shipped(), Printing.Text(items), lexems, upto)
    requires upto < |Printing.Text(items)| ==>
      Lexer.FirstRule(RuleFile.Shipped(), Printing.Text(items)[upto..]) == |RuleFile.RULES|
    requires ok == Assembles(lexems) && (ok && Coded(Linked(lexems)) ==> text == MemFile(Image(Linked(lexems))))
    ensures upto == |Printing.Text(items)| && Meant(items, lexems, ok, text)
  {
    hide Assembles, Coded, Linked, Image, MemFile, Links, Carries, Printing.Printable, Printing.Text, Statements.Whole;
    hide Lexer.Covers, Lexer.FirstRule, Grammar.Program, Grammar.Accepted, RuleFile.RuleAt;
    Printing.TextRead(items, lexems, upto);
    TextAssembles(items, lexems);
  }

  /** From the text of a program to its file, with the rules of the rule file. What the lexer has read
      before it fails is assembled all the same: its result is not looked at. */
  method AssembleText(content: string) returns (ok: bool, text: string, lexems: seq<Grammar.Lexem>, upto: nat)
    ensures upto <= |content| && Lexer.Covers(RuleFile.Shipped(), content, lexems, upto)
    ensures Lexer.Concat(lexems) == content[..upto]
    ensures upto < |content| ==> Lexer.FirstRule(RuleFile.Shipped(), content[upto..]) == |RuleFile.RULES|
    ensures ok <==> Syntax.Code(Syntax.Kinds(lexems)) && Links(Grammar.Program(lexems))
    ensures ok && Coded(Linked(lexems)) ==> text == MemFile(Image(Linked(lexems)))
    ensures forall items :: Printing.Printable(items) && content == Printing.Text(items) ==>
      upto == |content| && Meant(items, lexems, ok, text)
  {
    hide Assembles, Coded, Linked, Image, MemFile, Meant, Links, Grammar.Program, Syntax.Code, Syntax.Kinds;
    hide Printing.Printable, Printing.Text;
    hide Lexer.Covers, Lexer.FirstRule, Lexer.Advances, RuleFile.RuleAt;
    var rules := RuleFile.Shipped();
    RuleFile.ShippedProductive();
    HaveGroups(rules);
    Lexer.ProductiveAdvances(rules, content, 0);
    var complete;
    complete, lexems, upto := Lexer.LexemRead(rules, content);
    Lexer.Lossless(rules, content, lexems, upto);
    ok, text := Assemble(lexems);
    AssemblesExact(content, lexems, upto);
    forall items | Printing.Printable(items) && content == Printing.Text(items)
      ensures upto == |content| && Meant(items, lexems, ok, text)
    {
      TextMeant(items, lexems, upto, ok, text);
    }
  }

  /** From the text of a program to registers and memory: assembled, loaded, reset and run, it leaves
      what its lines denote, for as many of them as are runnable. */
  method RunText(content: string, cpu: Riscv.Processor, unknowns: seq<Unread>, ghost n: nat)
    returns (ok: bool, lexems: seq<Grammar.Lexem>, upto: nat)
    requires cpu.Valid()
    modifies cpu, cpu.file, cpu.file.registers, cpu.file.delay, cpu.memory, cpu.memory.mem
    ensures cpu.Valid()
    ensures upto <= |content| && Lexer.Covers(RuleFile.Shipped(), content, lexems, upto)
    ensures ok <==> Syntax.Code(Syntax.Kinds(lexems)) && Links(Grammar.Program(lexems))
    ensures ok && Coded(Linked(lexems)) && Count(Linked(lexems)) <= 512
            && Runnable(InsnLines(Linked(lexems)), n) && |unknowns| <= n + 2 ==>
            Shows(InsnLines(Linked(lexems)), n, |unknowns|, cpu.Value())
    ensures forall items :: Printing.Printable(items) && content == Printing.Text(items) ==>
      upto == |content| && Grammar.Program(lexems) == Statements.Whole(items)
        && (ok <==> Links(Statements.Whole(items)))
  {
    hide Assembles, Coded, Linked, Image, MemFile, Loaded, Runnable, Shows, Count, InsnLines;
    hide Lexer.Covers, Lexer.FirstRule, Lexer.Concat, Good, Run, Links, Grammar.Program, Statements.Whole;
    hide Printing.Printable, Printing.Text, Syntax.Code, Syntax.Kinds;
    ghost var start := cpu.Value();
    var text;
    ok, text, lexems, upto := AssembleText(content);
    if ok {
      cpu.ResetAndRun(Loaded(text), unknowns);
      ghost var out := Linked(lexems);
      if Coded(out) && Count(out) <= 512 && Runnable(InsnLines(out), n) && |unknowns| <= n + 2 {
        AssembledProgramRuns(out, n, start, unknowns);
      }
    }
  }

  lemma HaveGroups(rules: seq<Lexer.Rule>)
    requires Lexer.Productive(rules)
    ensures forall i :: 0 <= i < |rules| ==> rules[i].groups != []
  {
  }
}
