# A verified model of the RV32I processor and its assembler

The repository holds two halves of one toolchain: a five-stage pipelined RV32I processor in
SystemVerilog (`rtl/`), and an assembler in C (`compilateur/`) that turns text into the memory image
the processor fetches from. This project models both and proves what connects them: the pipeline
computes what the sequential instruction set says, the words the assembler emits are the ones the
processor decodes back, and each assembler pass - pattern compiler, regexp rewriter, matcher,
lexer, parser, label resolution, writer - does what its text promises, or fails to exactly when
stated.

The instruction set is that of The RISC-V Instruction Set Manual, Volume I, sections 2.2-2.4 and
2.6. `dafny verify dfyconfig.toml` checks everything.

## The processor

`Machine.Cpu` has one field for every clocked register of `rtl/riscv.sv` and its children, `Next`
is one rising edge and `Reset` one with reset high. `Riscv.Processor` is the same machine as clocked
objects that change in place, and its methods are proved against `Cpu`.

In cycle t after reset the fetched instruction is number t - 1, execute holds t - 2, memory t - 3
and write-back t - 4. The theorem (`Refinement.PipelineRefinesIsa`) has this skew in it: registers
are those of the sequential machine after t - 4 instructions, memory that after t - 3. It holds for
every program, every number of cycles (fetch wraps at 512 words, in the reference too) and whatever
an out-of-range read may return, as long as the first t - 2 instructions are

- ADD, SUB, AND, OR, XOR, SLL, SRL, ADDI, ANDI, ORI, XORI, SLLI, LUI, LBU, LHU, LW, SB, SH, SW or
  the all-zero NOP,
- putting nothing but zero into x0, since register 0 is an ordinary register (`ZeroBreaks`, and
  `ZeroWriteBreaks` for a program),
- not using a loaded register right after the load, unless the load gives its own address, since that
  is what is forwarded (`LoadUseBreaks`, and `RunForwards` for the exact condition),
- and without an access outside the 64 bytes of data memory.

`Departures` takes the other instructions of sections 2.4-2.6, each behind a run of the subset: SLT,
SLTU, SRA, SLTI, SLTIU, SRLI, SRAI, AUIPC, LB, LH, the branches, JAL and JALR. It says what arrives in
the destination register or the PC three edges later, in terms of the sequential state and the manual's
offset, and exactly when this is what the manual says. `Reserved` does the same for encodings that the
manual reserves, which the processor does not refuse. How offsets survive emission is in
`RoundTrip.BranchExact` and `RoundTrip.JalExact`.

| property | where |
|---|---|
| the pipeline refines the sequential machine, over whole runs | `Refinement.PipelineRefinesIsa`, `Riscv.Processor.ResetAndRun` |
| forwarding delivers the youngest older write, exactly unless a load is pending | `Stages.Forwarded`, `Refinement.RunForwards` |
| sized stores and loads are a little-endian byte array | `Mem.ReadIsLoad`, `Mem.WriteIsStore`, `Mem.StoreThenLoad` |
| decode(encode(line)) is the line, exactly when the immediate fits | `RoundTrip.DecodeEncode` |
| every mnemonic and its operands are read back from its word by the manual's listings | `Listings.ListedBack` |
| which jump and branch distances survive emission | `RoundTrip.JalExact`, `RoundTrip.BranchExact` |
| the text of any statements is lexed and parsed into the lines they denote | `Printing.TextRead`, `Statements.PrintedParses` |
| the parser accepts exactly the language of its grammar | `Syntax.AcceptedExact` |
| assemble, load and run | `EndToEnd.AssembledProgramRuns` |
| from program text to file | `EndToEnd.AssembleText` |
| from program text to registers and memory | `EndToEnd.RunText` |

## The assembler

`Regexp.Lang` is the language of a list of character groups, stated without reference to matching.
`Patterns` compiles pattern texts to such lists and `Notation` says what the texts mean.
`Rewriter.OptiRegexp` rewrites a linked list in place; the rewriting keeps the language of every
list, leaves every closure last in its run exactly when the list is `Settling`, and makes a list
deterministic exactly when it is `Tame`. `Matcher.ReMatch` is the greedy loop. On deterministic lists
`Matcher.ReportedExact` says everything it reports, by groups and input alone: a proper prefix exactly
when it is the longest word; the whole input exactly when the last group takes the last character, or
is a closure that is reached just when the input ends. So a word may be missed there (`a*b*` on "a",
`MissedMatch`) and a match reported without a word (`ab+` on "a", `FalseMatch`); `WholeInput` and
`NothingFound` give the exact conditions.

`RuleFile` holds the rule file and applies all this to each of its 57 rules: lexing always ends, and the
matcher is exact for them apart from a lone `r`, `+` or `-` at the very end of a text. `Names` says
which names become label references, given that the first rule wins: `jump` does not, being cut after
the `j`. `Reading` says what the rules make of each kind of word: every mnemonic, register, number,
separator, label and label reference, with the text behind it.

`Parser.CodeParser` is the recursive-descent parser with its three pieces of state. `Grammar` says
which production a text starts with and what it translates to; each parsing method is proved to do
that and, where it fails, to leave instructions and address counter alone. `Labels` proves addresses,
conservation and label resolution, `AsmLine` the writer.

These speak of the assembler in its own tables. What the tables should be is stated apart from them:
`Spelling` how mnemonics, registers and numbers are written, `Statements` the abstract statements, how
each of the eleven productions is written and which lines it denotes, `Syntax` the grammar over lexeme
types, and `Listings` the manual's instruction listings. The theorems there connect the two.
`Printing` puts them together: whatever the statements and labels are, the text printed from them is
read lexeme by lexeme as printed, accepted, and translated into exactly the lines they denote, and
`EndToEnd.AssembleText` turns it into words that the manual reads as the mnemonics spelled in the text.

Results about the code that a reader of its documentation may not expect:

- Branch offsets are emitted with an unshifted low nibble, so a label distance survives exactly when
  it is a non-negative multiple of 32 below 4096; a jump distance exactly when it is in 0 .. 2^19 - 1.
  The jump that closes every program goes backwards, so it is never emitted faithfully when the
  program has another word (`EndToEnd.ClosingJumpLost`).
- A branch redirects the PC from write-back whether it is taken or not, and a taken one or a JAL lands
  8 past a target ahead and 9 past one behind, where the immediate generator leaves bit 0 set
  (`Departures.BranchInRun`, `Departures.JalInRun`, `Departures.OffsetExact`).
- `compilateur/src/lexem.c:77-79` compares a terminal with a prefix of the lexeme's type, so the
  production of `ADD` also accepts an `ADDI` lexeme: `addi r1, r2, r3` is assembled without an error,
  as `addi r1, r2, 0` (`Syntax.RegisterIgnored`). The grammar here follows the code, not the comments
  above each parsing function. It also follows the code in accepting a label after an
  instruction on one line (`compilateur/src/parser.c:88-99`).
- An interval of a character class that ends in an escape, such as `[a-\z]+`, swallows its closing
  bracket: the operator is lost and its sign is in the class (`Notation.EscapedEnd`).
- A store at the third byte from the end of the data memory writes its two middle bytes
  (`Mem.StoreOutside`), and one that reaches beyond the last address goes on at address 0
  (`Mem.StoreAround`).
- An opcode without a case is executed as one that writes 0 (`Reserved.OtherOpcode`).
- `nop` has a rule in the lexer but no production, so no accepted program contains it
  (`Labels.NopRefused`).
- `compilateur/prog/rv32icomp.c:50` does not look at the lexer's result, so a program with a lexical
  error is assembled up to it if that part is accepted (`EndToEnd.AssembleText`).
- `compilateur/prog/rv32icomp.c:74-86` resolves labels only when it is asked to be verbose. The
  theorems are about the passes in the intended order.

## Modelling choices

- A word is an integer in 0 .. 2^32 - 1 and wrap-around is written out.
- Control-signal selector values that no branch of `rtl/control_logic.sv` produces (2'b11) have no
  representation.
- Clocked registers of modules that are otherwise combinational are fields of `Riscv.Processor`.
- Lists that a function only reads are sequences; the parser's list pointer is a position. The list
  that `opti_regexp` and `regexp_new` relink and the circular queue are linked nodes.
- A register without a code is a null string for the writer, so writing asks for valid registers.
- A mnemonic missing from the table gets code -1 in an unsigned enumeration and so is of the last
  type, as in the code.

## Model

| member | source | states |
|---|---|---|
| `Words.BitwiseAt` | rtl/alu.sv:64-75 | every bit of the bitwise result is the operator applied to the operands' bits at that position |
| `RegFile.ThreeDff.Clock` | rtl/3dff.sv:10-24 | one edge moves the delay line by one place, with all three registers sampled first; reset clears it |
| `RegFile.RegisterFile.Clock` | rtl/regfile.sv:29-77 | one edge on the array, the registered read addresses and the delayed write address, together equal to the specified next file |
| `Mem.DataMemory.PutByte` | rtl/mem.sv:41 | writes one byte inside the array and nothing outside it |
| `Mem.DataMemory.WriteSized` | rtl/mem.sv:37-58 | the bytes after a byte, half or word write at any address, wrap-around and end of memory included |
| `Mem.DataMemory.Clock` | rtl/mem.sv:26-61 | one edge: bytes and both output registers, or all of them at their reset values |
| `Mem.ReadIsLoad` | rtl/mem.sv:69-101 | a read inside the memory is the little-endian load of that size, whatever lies beyond the end |
| `Mem.WriteIsStore` | rtl/mem.sv:37-58 | a write inside the memory is the little-endian store of that size |
| `Mem.StoreBytes` | rtl/mem.sv:37-58 | a store puts byte k of its value at address a + k and leaves every other byte alone |
| `Mem.LoadStored` | rtl/mem.sv:37-101 | a load right after a store of the same size and address gives the value modulo 2^(8 n) |
| `Mem.StoreThenLoad` | rtl/mem.sv:37-101 | a load gives back a stored value, modulo 2^(8 size), after any run of non-overlapping stores in between |
| `Mem.StoreOutside` | rtl/mem.sv:37-57 | a store that reaches beyond the end changes nothing, but for the two middle bytes of a word at the third byte from the end |
| `Mem.StoreAround` | rtl/mem.sv:43-52 | which bytes at the start of the memory a store beyond the last address writes |
| `Mem.LoadOutside` | rtl/mem.sv:69-101 | a load that reaches beyond the end gives the bytes that are there and zeros, with one unknown byte for a word at the third byte from the end |
| `Riscv.Processor.Clock` | rtl/riscv.sv:54-157 | one edge of the clocked objects is one step of the machine as a value |
| `Riscv.Processor.ResetAndRun` | rtl/riscv.sv:54-157 | after reset and any number of edges the register array and the memory array hold the sequential machine's state |
| `Stages.FieldsOf` | rtl/control_logic.sv:136-163 | for every instruction of the subset the control logic reads destination, sources, access size and class as the manual's decoder does |
| `Stages.OperationOf` | rtl/control_logic.sv:194-267 | the ALU operation and operand selection are those of the decoded instruction |
| `Stages.ImmediateOf` | rtl/imm_gen.sv:41-71 | the generated immediate is the manual's sign-extended one |
| `Stages.EvalIsAlu` | rtl/alu.sv:43-97 | each ALU operation computes the instruction it is selected for |
| `Stages.Forwarded` | rtl/control_logic.sv:136-163 | the selected source is the register after both older instructions, the younger writer first, exactly unless that register is still being loaded |
| `Stages.ForwardingExact` | rtl/opti.sv:50-61 | both operands are right if and only if none of them is still being loaded |
| `Stages.ExecuteStage` | rtl/opti.sv:62-69 | with right operands execute leaves the result or address, and the store data, of the sequential instruction |
| `Stages.MemoryStage` | rtl/control_logic.sv:274-291 | the memory stage leaves the sequential memory and the value to write back |
| `Stages.WriteBackStage` | rtl/wb.sv:42-54 | the register array after the edge is the sequential one after the oldest instruction |
| `Stages.FlightNext` | rtl/riscv.sv:54-157 | one edge moves three instructions on and advances the sequential state by the oldest |
| `Stages.NoJump` | rtl/wb.sv:56-67 | no instruction of the subset redirects the PC |
| `Stages.AluArrives` | rtl/regfile.sv:39-77 | the ALU output of execute is in the destination register three edges later, for every instruction that writes one from the ALU |
| `Stages.LoadArrives` | rtl/mem.sv:69-101 | what a load reads at the ALU's address, from the memory after the older instructions, is in its register three edges later |
| `Stages.ResultArrives` | rtl/regfile.sv:72-75 | with right operands the sequential result arrives in the named register, x0 included |
| `Stages.LoadUseComputes` | rtl/control_logic.sv:151-156 | an immediate instruction right behind the load of its operand computes with the load's address |
| `Refinement.ResetEstablishes` | rtl/control_logic.sv:91-95 | reset establishes the invariant from any state |
| `Refinement.PcArithmetic` | rtl/imem.sv:27-31 | the wrapped PC indexes instruction t mod 512 in cycle t, for every t |
| `Refinement.OccupiedNext` | rtl/control_logic.sv:96-100 | each stage holds the instruction of its number in every cycle |
| `Refinement.NextPreserves` | rtl/riscv.sv:54-157 | one edge preserves the invariant |
| `Refinement.RunInvariant` | rtl/riscv.sv:54-157 | the invariant holds after every run |
| `Refinement.PipelineRefinesIsa` | rtl/riscv.sv:54-157 | from any state, reset and t edges give the sequential registers after t - 4 and memory after t - 3 instructions; register 0 stays 0 |
| `Refinement.SafeByLooks` | rtl/control_logic.sv:136-163 | an instruction without x0 destination and not right behind a load of its operand is safe |
| `Refinement.RunForwards` | rtl/opti.sv:50-61 | in every reachable state the operands in execute are those after all older instructions, if and only if no operand is still being loaded |
| `Refinement.LoadUseBreaks` | rtl/control_logic.sv:151-156 | a concrete load-use program that the pipeline runs wrongly from any initial state |
| `Refinement.ZeroBreaks` | rtl/regfile.sv:72-75 | any result for x0 arrives in register 0, which agrees with the manual if and only if it is zero |
| `Refinement.ZeroWriteBreaks` | rtl/regfile.sv:72-75 | a concrete program with an x0 destination that leaves 1 in register 0 |
| `Departures.Operands` | rtl/control_logic.sv:136-163 | the operands any instruction gets in a run: the current registers if and only if they are not still being loaded, and for immediate forms a second one four instructions old |
| `Departures.SltExact` | rtl/control_logic.sv:202-205 | SLT's result is right if and only if both operands have the same sign |
| `Departures.SltuExact` | rtl/control_logic.sv:206-210 | SLTU's result is right if and only if both operands have the same sign |
| `Departures.SltiExact` | rtl/opti.sv:32-38 | SLTI and SLTIU compare with an old register, right if and only if it lies on the same side of the operand as the immediate |
| `Departures.SraExact` | rtl/alu.sv:89-93 | SRA's result is right if and only if the operand is non-negative or the amount is zero |
| `Departures.ShiftImmediateExact` | rtl/control_logic.sv:222-239 | SRLI and SRAI give 0: SRLI right if and only if every set bit is shifted out, SRAI if and only if also the operand is non-negative |
| `Departures.AuipcExact` | rtl/alu.sv:57-60 | AUIPC shifts the sum with the fetch PC, which is right in exactly one cycle of 2^30 |
| `Departures.LoadSignExact` | rtl/control_logic.sv:284-290 | LB and LH load one and two bytes at the register plus the offset, zeros above them, so right if and only if the top bit loaded is clear |
| `Departures.OffsetExact` | rtl/imm_gen.sv:41-68 | the processor's offset is the manual's, one more for a backward branch or JAL, so right if and only if it is not negative |
| `Departures.ConditionExact` | rtl/branch_comp.sv:19-52 | BLT, BGE, BLTU and BGEU are decided rightly if and only if the operands have the same sign, BEQ and BNE always |
| `Departures.TakenCompares` | rtl/control_logic.sv:169-189 | what decides a branch: the unsigned comparison for BLT and BGE, the signed one for BLTU and BGEU |
| `Departures.JumpLands` | rtl/control_logic.sv:246-261 | three edges after execute the PC is the fetch PC plus the immediate, or 0 after an untaken branch |
| `Departures.BranchInRun` | rtl/control_logic.sv:301-303 | where a branch lands in a run, from its operands and the manual's offset, and that this is where the manual says if and only if a branch over two instructions is taken wrongly, or an untaken one should be at 0 |
| `Departures.BranchAtOnce` | rtl/control_logic.sv:173-188 | a taken branch first sets the PC to what the second instruction before it left on the write-back bus |
| `Departures.JalInRun` | rtl/control_logic.sv:166-167 | in a run JAL lands 8 past the manual's target, 9 for a negative offset, never on it |
| `Departures.JalrExact` | rtl/control_logic.sv:166-167 | JALR is right if and only if its offset is even and the register holds the fetch PC up to the lowest bit |
| `Departures.LinkExact` | rtl/wb.sv:49-67 | the link register is 16 too far, or what the instruction before the jump left plus 4 behind a taken branch; right if and only if that is the jump's own address |
| `Reserved.ReservedRegister` | rtl/control_logic.sv:195-221 | register instructions with a reserved funct7 leave 0 for funct3 0 and 5 and otherwise what they leave with funct7 0 |
| `Reserved.ReservedShift` | rtl/control_logic.sv:225 | SLLI shifts by its low five bits whatever is above them |
| `Reserved.ReservedLoad` | rtl/control_logic.sv:284-290 | loads with a reserved funct3 leave one zero-extended byte |
| `Reserved.ReservedStore` | rtl/control_logic.sv:275-290 | stores with a reserved funct3 store one byte, with 5 two |
| `Reserved.OtherOpcode` | rtl/control_logic.sv:194-271 | every opcode without a case leaves 0 in the register that bits 11 to 7 number |
| `Binary.PrintBinary` | compilateur/src/asm_line.c:334-343 | prints the two's complement numeral of the given width |
| `Binary.ValueOfBits` | compilateur/src/asm_line.c:334-343 | the printed numeral is binary and has the value n mod 2^size |
| `Binary.ValueOfDigits` | compilateur/src/asm_line.c:354-663 | a line printed field by field reads as its fields packed into one number |
| `Binary.ReadBack` | compilateur/src/asm_line.c:354-663 | reading an emitted file back gives exactly the emitted words |
| `Binary.FileLayout` | compilateur/src/asm_line.c:357-663 | the file has 33 characters for each word: its 32-digit numeral and a newline |
| `AsmLine.WriteRegReg` | compilateur/src/asm_line.c:362-439 | prints the R layout |
| `AsmLine.WriteImm` | compilateur/src/asm_line.c:440-504 | prints the I layout, for shifts with function code and five-bit amount |
| `AsmLine.WriteBranch` | compilateur/src/asm_line.c:505-567 | prints the branch layout with the unshifted low nibble |
| `AsmLine.WriteStore` | compilateur/src/asm_line.c:606-634 | prints the S layout |
| `AsmLine.WriteJal` | compilateur/src/asm_line.c:635-642 | prints the jump layout, without sign |
| `AsmLine.WriteUpper` | compilateur/src/asm_line.c:650-659 | prints the U layout |
| `AsmLine.WriteInsn` | compilateur/src/asm_line.c:357-663 | prints each line by its type |
| `AsmLine.LayoutWidth` | compilateur/src/asm_line.c:357-663 | every instruction line is exactly 32 digits wide |
| `AsmLine.WordText` | compilateur/src/asm_line.c:357-663 | the digits of a line are the 32-digit numeral of its word |
| `AsmLine.Write` | compilateur/src/asm_line.c:345-670 | the file is one 32-digit line per instruction line, in order, and nothing for labels |
| `RoundTrip.EncodedRegs` | compilateur/src/asm_line.c:362-439 | every field of an R word reads back as the line's |
| `RoundTrip.EncodedImm` | compilateur/src/asm_line.c:440-504 | every field of an I word reads back as the line's, the immediate modulo 2^12 |
| `RoundTrip.EncodedStore` | compilateur/src/asm_line.c:606-634 | every field of an S word reads back as the line's, the split immediate modulo 2^12 |
| `RoundTrip.EncodedUpper` | compilateur/src/asm_line.c:650-659 | the upper twenty bits and the register of a U word read back |
| `RoundTrip.DecodeEncode` | compilateur/src/asm_line.c:357-663 | the manual decodes the emitted word to what the line denotes if and only if the immediate fits |
| `RoundTrip.ImmediateExact` | rtl/imm_gen.sv:48-62 | twelve-bit immediates and JALR offsets reach the processor if and only if they are in -2048..2047 |
| `RoundTrip.UpperRoundTrip` | rtl/imm_gen.sv:69 | LUI and AUIPC give the source constant with its low twelve bits cleared |
| `RoundTrip.JalExact` | compilateur/src/asm_line.c:635-642 | a jump offset survives if and only if it is even and in 0..2^19-1 |
| `RoundTrip.BranchExact` | compilateur/src/asm_line.c:505-567 | a branch offset survives if and only if it is a non-negative multiple of 32 below 4096, or odd, negative, and one above such a multiple |
| `Listings.ListedRegReg` | compilateur/include/rv32ias/asm_line.h:52-87 | a register instruction reads back from its word, by the manual's listing, with its three registers |
| `Listings.ListedShift` | compilateur/include/rv32ias/asm_line.h:59-85 | a shift by an immediate reads back, with its registers and its amount modulo 32 |
| `Listings.ListedImm` | compilateur/include/rv32ias/asm_line.h:42-94 | immediate instructions, loads and JALR read back, with registers and the immediate if and only if it is in -2048..2047 |
| `Listings.ListedStore` | compilateur/include/rv32ias/asm_line.h:95-97 | a store reads back, with its registers and the immediate if and only if it is in -2048..2047 |
| `Listings.ListedUpper` | compilateur/include/rv32ias/asm_line.h:49-50 | LUI and AUIPC read back, with the register and the upper bits |
| `Listings.ListedBranch` | compilateur/include/rv32ias/asm_line.h:58-89 | a branch reads back with its registers, its offset if and only if it is a multiple of 32 in -4096..4095 |
| `Listings.ListedJal` | compilateur/include/rv32ias/asm_line.h:47 | JAL reads back with its register, its offset if and only if it is even and in 0..2^19-1 |
| `Listings.ListedBack` | compilateur/include/rv32ias/asm_line.h:41-98 | every mnemonic with a code reads back from the word that is written for it |
| `Listings.SupportedExact` | rtl/control_logic.sv:194-271 | the instructions of the refinement, by name |
| `EndToEnd.RunIsDenoted` | rtl/riscv.sv:54-157 | the sequential run of emitted words is the run of the lines' meanings |
| `EndToEnd.FileHolds` | compilateur/src/asm_line.c:345-670 | a loaded file holds the words of the instruction lines, each at its index |
| `EndToEnd.HeldProgramRuns` | rtl/riscv.sv:54-157 | the pipeline over emitted words leaves what the lines denote |
| `EndToEnd.AssembledProgramRuns` | compilateur/prog/rv32icomp.c:61-95 | written, loaded, reset and run, a program leaves in registers and memory what its mnemonics denote |
| `EndToEnd.AssemblesExact` | compilateur/prog/rv32icomp.c:61-86 | lexemes of any text are assembled if and only if their types are a program of the grammar and every jump names a defined label |
| `EndToEnd.WordsCarry` | compilateur/src/asm_line.c:302-670 | the words after label resolution read, by the manual's listings, as the mnemonics of the lines |
| `EndToEnd.TextAssembles` | compilateur/prog/rv32icomp.c:61-95 | the program of any statements is assembled if and only if their targets are defined, into words with their mnemonics |
| `EndToEnd.RunnableByLooks` | compilateur/src/asm_line.c:345-670 | lines without x0 destination and load-use are runnable |
| `EndToEnd.ClosingJumpLost` | compilateur/src/parser.c:78-79 | the closing jump is emitted faithfully if and only if it is the program's only word |
| `EndToEnd.Assemble` | compilateur/prog/rv32icomp.c:61-95 | the passes in order succeed exactly for accepted programs with defined labels, and give which file when every register has a code |
| `EndToEnd.AssembleText` | compilateur/prog/rv32icomp.c:50-95 | from text to file with the shipped rules: which lexemes, what they cover, success if and only if their types are a program of the grammar and every jump has a label, and which file; a text printed from statements becomes their lines and words with the mnemonics it spells |
| `EndToEnd.RunText` | compilateur/prog/rv32icomp.c:50-95 | assembled, loaded, reset and run, a text leaves what its lines denote, for as many as are runnable; for a text printed from statements these are the lines of the statements |
| `Grammar.TranslateInsn` | compilateur/src/parser.c:102-118 | a text that starts with an instruction translates to that instruction's lines and then the rest at the advanced address |
| `Grammar.InsnStep` | compilateur/src/parser.c:102-118 | taking one instruction leaves the translation of the whole unchanged and adds as many words as lines |
| `Grammar.OtherIsNoInsn` | compilateur/src/lexem.c:77-79 | prefix matching never confuses a mnemonic with another kind of lexeme |
| `Spelling.KindIsName` | compilateur/src/asm_line.c:36-79 | the lexeme type of a mnemonic is `insn::` and its name in capitals |
| `Spelling.PrefixExact` | compilateur/src/asm_line.c:36-79 | one mnemonic is the front of another only for sixteen listed pairs |
| `Spelling.InsnRead` | compilateur/src/asm_line.c:36-79 | str2insn gives every mnemonic back from its lexeme type |
| `Spelling.NumberRead` | compilateur/src/parser.c:182 | every integer is read back from its decimal text, with or without a plus sign |
| `Spelling.ZerosRead` | compilateur/src/parser.c:182 | so it is with zeros before it |
| `Spelling.RegRead` | compilateur/src/asm_line.c:81-128 | every register is read back from each of its names |
| `Spelling.RegExact` | compilateur/src/asm_line.c:81-128 | and no other name has a register: the rest give -1 |
| `Statements.PlainExact` | compilateur/src/lexem.c:77-79 | the type of a terminal that is no mnemonic is the front of no other one's |
| `Statements.StmtAlt` | compilateur/src/parser.c:102-118 | the lexemes of a statement are taken by its own production |
| `Statements.StmtLines` | compilateur/src/parser.c:123-418 | and become the lines it denotes, operand by operand |
| `Statements.ItemParses` | compilateur/src/parser.c:88-99 | one line of a program, statement or label, is consumed up to its newline and translated to what it denotes |
| `Statements.PrintedParses` | compilateur/src/parser.c:63-445 | the lexemes of any list of statements and labels are accepted and translated to the start label, the lines they denote and the closing jump |
| `Syntax.IsExact` | compilateur/src/lexem.c:77-79 | a terminal that is no mnemonic accepts one lexeme type only |
| `Syntax.HeadExact` | compilateur/src/parser.c:123-445 | which lexeme types each production starts with, prefixes included |
| `Syntax.AppliesExact` | compilateur/src/parser.c:123-418 | a production applies if and only if its sequence of types stands there |
| `Syntax.SameLength` | compilateur/src/parser.c:102-118 | two productions that apply at the same place are equally long |
| `Syntax.LineComplete` | compilateur/src/parser.c:88-99 | a line of the grammar is taken whole, at most with the label of the next one |
| `Syntax.EolComplete` | compilateur/src/parser.c:448-471 | any sequence of line ends of the grammar is skipped whole |
| `Syntax.AcceptedExact` | compilateur/src/parser.c:63-471 | the parser accepts lexemes if and only if their types are derived by the grammar |
| `Syntax.RegisterIgnored` | compilateur/src/parser.c:123-155 | an immediate instruction with three registers is accepted and written like one with immediate 0 |
| `Parser.CodeParser.ChkTerm` | compilateur/include/rv32ias/parser.h:52-60 | consumes and captures the terminal, or fails with the position unchanged |
| `Parser.CodeParser.ChkHead` | compilateur/src/parser.c:126-137 | accepts exactly the mnemonics of the alternative |
| `Parser.CodeParser.ParseInsnRegreg` | compilateur/src/parser.c:123-155 | succeeds exactly when the production applies and adds its line; otherwise lines and counter are unchanged |
| `Parser.CodeParser.ParseInsnImm` | compilateur/src/parser.c:160-190 | likewise for register-immediate instructions |
| `Parser.CodeParser.ParseInsnBranch` | compilateur/src/parser.c:194-227 | likewise for branches, which add two NOPs |
| `Parser.CodeParser.ParseInsnLoad` | compilateur/src/parser.c:231-258 | likewise for loads |
| `Parser.CodeParser.ParseInsnStore` | compilateur/src/parser.c:261-286 | likewise for stores, with the source register first |
| `Parser.CodeParser.ParseInsnJal` | compilateur/src/parser.c:289-305 | likewise for JAL |
| `Parser.CodeParser.ParseInsnJalr` | compilateur/src/parser.c:308-327 | likewise for JALR |
| `Parser.CodeParser.ParseInsnUpper` | compilateur/src/parser.c:330-350 | likewise for LUI and AUIPC |
| `Parser.CodeParser.ParseUnsninsnJ` | compilateur/src/parser.c:367-380 | likewise for J, as JAL through r6 |
| `Parser.CodeParser.ParseUnsninsnLi` | compilateur/src/parser.c:383-399 | likewise for LI, as ADDI from r0 |
| `Parser.CodeParser.ParseUnsninsnMv` | compilateur/src/parser.c:402-418 | likewise for MV, as ADD with r0 |
| `Parser.CodeParser.ParseUnsninsnBle` | compilateur/src/parser.c:421-445 | always fails |
| `Parser.CodeParser.ParseUnsninsn` | compilateur/src/parser.c:353-364 | the first pseudo-instruction that applies, or nothing changed |
| `Parser.CodeParser.ParseInsn` | compilateur/src/parser.c:102-118 | the first alternative that applies and exactly its lines; on failure position, lines and counter are all unchanged |
| `Parser.CodeParser.ParseCodeLine` | compilateur/src/parser.c:88-99 | ends where the line's syntax ends and keeps what is and will be translated; on failure nothing changed |
| `Parser.CodeParser.ParseEol` | compilateur/src/parser.c:448-471 | skips exactly the layout, fails where a newline is missing |
| `Parser.CodeParser.ParseCode` | compilateur/src/parser.c:63-85 | succeeds exactly on accepted texts, with every lexeme consumed and the program's translation as the list |
| `Labels.TranslateAddressed` | compilateur/src/parser.c:148-149 | each line's address is four times the number of words before it |
| `Labels.ProgramAddressed` | compilateur/src/parser.c:63-85 | the same for whole programs, start label and closing jump included |
| `Labels.InsnWeight` | compilateur/src/parser.c:215-221 | an instruction adds one line, a branch three |
| `Labels.Conservation` | compilateur/src/parser.c:63-99 | words = instructions + 2 * branches + 1 for every accepted program |
| `Labels.FindLabel` | compilateur/src/asm_line.c:313-320 | gives the jump the distance to the last definition of its label, and tells whether there is one |
| `Labels.UpdateAddress` | compilateur/src/asm_line.c:302-332 | resolves every jump up to the first one without a label, and succeeds exactly when there is none |
| `Labels.PassExact` | compilateur/src/asm_line.c:302-332 | the pass succeeds if and only if every BEQ, BNE, BLT, BGE, BLTU, BGEU, JAL and JALR (and mnemonic without a code) names a label that some line defines |
| `Labels.JumpResolved` | compilateur/src/asm_line.c:309-320 | each of these gets the distance to the last definition of its label |
| `Labels.OtherKept` | compilateur/src/asm_line.c:309-312 | and every other line is left as it is |
| `Labels.ImageAt` | compilateur/src/asm_line.c:354-356 | an instruction line's word stands at the index that counts the words before it |
| `Labels.LabelsResolved` | compilateur/src/asm_line.c:302-332 | every resolved BEQ, BNE, BLT, BGE, BLTU, BGEU, JAL and JALR carries 4 * (index of the first word after the last definition of its label - index of its own word) |
| `Labels.ClosingJump` | compilateur/src/parser.c:78-79 | the closing jump goes back over the whole program |
| `Labels.NopRefused` | compilateur/src/parser.c:102-118 | no accepted text contains a nop |
| `Regexp.CharGroupIn` | compilateur/src/char_group.c:165-172 | membership, never for codes above 127 |
| `Regexp.EmptyWord` | compilateur/src/regexp.c:384-394 | the empty word is in the language if and only if every group may be skipped |
| `Regexp.FirstOfWord` | compilateur/src/regexp.c:336-382 | a word starts with a character that the computed first set holds |
| `Lists.AddLast` | compilateur/src/list.c:56-73 | appends one link, the others and their contents unchanged |
| `Lists.Unlink` | compilateur/src/list.c:75-87 | removes one link and relinks its predecessor |
| `Patterns.CharGroup.SingleChar` | compilateur/src/char_group.c:139-147 | the set of one character, or of all others |
| `Patterns.CharGroup.Inverse` | compilateur/src/char_group.c:134-137 | the complement |
| `Patterns.CharGroup.Process` | compilateur/src/char_group.c:36-118 | fills the set and operator of a class text |
| `Patterns.ReadGroups` | compilateur/src/regexp.c:101-185 | the reading loop gives the groups of the text, and fails exactly when the last one is unfinished |
| `Patterns.RegexpNew` | compilateur/src/regexp.c:79-193 | the linked list it returns holds the rewritten groups of the text |
| `Notation.CloseExact` | compilateur/src/regexp.c:144-163 | a class ends at its written bracket if and only if its last item is not an escaped backslash |
| `Notation.ScanItems` | compilateur/src/char_group.c:53-115 | a printed class is read item by item, with its operator |
| `Notation.AllListedHas` | compilateur/src/char_group.c:53-115 | a class holds exactly the characters its items denote, and a negated one exactly the others |
| `Notation.EscapedEnd` |  compilateur/src/char_group.c:68-88 | behind an interval that ends in an escape the closing bracket is lost and the operator is a member of the class |
| `Notation.TextParse` | compilateur/src/regexp.c:101-185 | printing and compiling a pattern gives exactly the denoted groups |
| `Notation.PatternMeans` | compilateur/src/regexp.c:79-193 | the language of a compiled text, rewriting included, is the language it denotes |
| `RuleFile.LabelText` | compilateur/database.txt:6 | the label pattern is the text of its pieces |
| `RuleFile.TextOf` | compilateur/database.txt:2-67 | so is every text, operators, classes and plain words alike |
| `RuleFile.RuleTexts` | compilateur/database.txt:2-67 | each of the 57 rules is a plain word or one of nine other texts |
| `RuleFile.RuleGroups` | compilateur/database.txt:2-67 | every rule of the file compiles to the groups its text denotes |
| `RuleFile.KnownGroups` | compilateur/src/regexp.c:190 | these are deterministic, have a mandatory group and are unchanged by the rewriter |
| `RuleFile.EndExact` | compilateur/src/regexp.c:384-399 | a rule takes the whole rest of a text if and only if that is a word of it, or a lone `r`, `+` or `-` |
| `RuleFile.ShippedExact` | compilateur/database.txt:2-67 | what each rule of the file takes anywhere in a content: a proper prefix if and only if it is the longest word, all of it as in EndExact |
| `RuleFile.ShippedProductive` | compilateur/src/lexem.c:131-166 | every rule of the file has a mandatory group |
| `Names.WordMatches` | compilateur/src/regexp.c:336-382 | a plain word is found exactly where it is a prefix |
| `Names.FindsExact` | compilateur/database.txt:2-67 | what every rule finds at the front of a text that starts with a letter, in terms of that text |
| `Names.ReferenceExact` | compilateur/src/lexem.c:132-134 | such a text starts with a label reference if and only if no earlier rule finds anything |
| `Names.MnemonicFirst` | compilateur/src/lexem.c:132-134 | a name that starts with a mnemonic is never one |
| `Names.JumpIsCut` | compilateur/database.txt:49 | so `jump` is not |
| `RuleOrder.MnemonicRow` | compilateur/database.txt:9-46 | each mnemonic has a rule, of its type and its spelling |
| `RuleOrder.LongerFirst` | compilateur/database.txt:9-46 | a mnemonic that starts with another one has the earlier rule |
| `Reading.MnemonicReads` | compilateur/src/lexem.c:132-134 | every mnemonic in small letters, behind which no name goes on and no colon stands, is taken whole by the first matching rule, which has its type |
| `Reading.PseudoReads` | compilateur/database.txt:49-52 | so are the pseudo-instructions |
| `Reading.RegisterReads` | compilateur/database.txt:57-62 | every register by any of its names is read as a register |
| `Reading.ReferenceReads` | compilateur/src/lexem.c:132-134 | a name is read whole as a label reference if and only if it has no mnemonic and no register at its front |
| `Reading.LabelReads` | compilateur/database.txt:6 | every name with a colon is read as a label |
| `Reading.Starts` | compilateur/database.txt:2-67 | the characters at which each rule can match |
| `Reading.NumberReads` | compilateur/database.txt:56 | every decimal number is read whole |
| `Reading.BlankReads` | compilateur/database.txt:2 | a blank is read up to what is no blank |
| `Reading.NewlineReads` | compilateur/database.txt:3 | and a newline up to what is no newline |
| `Reading.SeparatorReads` | compilateur/database.txt:5 | comma and parentheses are read as themselves |
| `Printing.SpacedRead` | compilateur/src/lexem.c:131-166 | in a text in which separators stand between words every lexeme is read as it was printed |
| `Printing.CoversPrinted` | compilateur/src/lexem.c:131-166 | however far the lexer has come in a printed text, its lexemes are the first printed ones |
| `Printing.CoveredKinds` | compilateur/src/lexem.c:131-166 | the lexer produces only types of the rule file |
| `Printing.TextRead` | compilateur/src/lexem.c:86-173 | the text of any statements and labels is covered to its end, accepted by the parser, and translated into exactly what they denote |
| `Rewriter.SameGroup` | compilateur/src/regexp.c:47-49 | compares the 256 entries |
| `Rewriter.Merge` | compilateur/src/regexp.c:52-57 | `a*a` and `a*a+` become one link `a+` |
| `Rewriter.Shift` | compilateur/src/regexp.c:58-64 | `a+a` becomes `aa+` |
| `Rewriter.Round` | compilateur/src/regexp.c:44-75 | one round of the loop makes progress and leaves what the pass makes of the list unchanged |
| `Rewriter.OptiRegexp` | compilateur/src/regexp.c:35-77 | the list rewritten in place holds what the specified pass gives, cascades included |
| `Rewriter.MergeKeeps` | compilateur/src/regexp.c:52-57 | merging keeps the language |
| `Rewriter.ShiftKeeps` | compilateur/src/regexp.c:58-64 | shifting keeps the language |
| `Rewriter.OptiKeeps` | compilateur/src/regexp.c:35-77 | the pass from any previous link keeps the language |
| `Rewriter.LanguageKept` | compilateur/src/regexp.c:35-77 | the pass keeps the language of every list |
| `Rewriter.MandatoryKept` | compilateur/src/regexp.c:44-75 | the pass keeps the number of mandatory characters |
| `Rewriter.FirstKept` | compilateur/src/regexp.c:44-75 | the pass keeps the set of first characters |
| `Rewriter.TameExact` | compilateur/src/regexp.c:35-77 | the pass makes a list deterministic if and only if it is tame |
| `Rewriter.SettlesExact` | compilateur/src/regexp.c:44-75 | the pass leaves every closure last in its run if and only if the list is settling |
| `Rewriter.NormalForm` | compilateur/src/regexp.c:44-75 | with at most one closure per run and no `?`, the closure ends last in its run and the mandatory count is unchanged |
| `Rewriter.Unchanged` | compilateur/src/regexp.c:65-74 | a list without a closure before its own characters is left as it is |
| `Matcher.ReMatch` | compilateur/src/regexp.c:329-401 | the loop ends and reports what the specified greedy run reports |
| `Matcher.GreedySound` | compilateur/src/regexp.c:336-382 | what a finished run consumed is a word, and what completes an unfinished one completes the input to a word |
| `Matcher.MatchSound` | compilateur/src/regexp.c:336-395 | a reported match is a word, unless the input ended in front of a `+` that has consumed nothing |
| `Matcher.GreedyExact` | compilateur/src/regexp.c:336-382 | on deterministic lists the run decides every prefix of the input |
| `Matcher.OutcomeExact` | compilateur/src/regexp.c:336-382 | on deterministic lists a finished run is the longest word, a failed one means there is none |
| `Matcher.LongestFound` | compilateur/src/regexp.c:329-382 | the longest word is reported whenever it leaves some input |
| `Matcher.TakesAllExact` | compilateur/src/regexp.c:384-399 | on deterministic lists the whole input is reported if and only if the last group takes the last character, or is a closure reached just at the end |
| `Matcher.ReportedExact` | compilateur/src/regexp.c:329-401 | everything reported on deterministic lists, by groups and input alone |
| `Matcher.TakenIsWord` | compilateur/src/regexp.c:384-394 | all of these reports are words but the final `+` that has taken nothing |
| `Matcher.NothingFound` | compilateur/src/regexp.c:384-388 | without a matching prefix something is reported if and only if a final `+` is reached just when the input ends |
| `Matcher.WholeInput` | compilateur/src/regexp.c:384-399 | a word that is the whole input is reported if and only if the last group takes its last character, or a plain or optional group before a final `*` does |
| `Matcher.RewrittenFindsLongest` | compilateur/src/regexp.c:329-382 | rewriting then matching finds the longest word of the original tame list |
| `Matcher.FalseMatch` | compilateur/src/regexp.c:384-394 | a concrete match that is reported without being one |
| `Matcher.MissedMatch` | compilateur/src/regexp.c:384-389 | a concrete word that is not reported |
| `Lexer.Positions` | compilateur/src/lexem.c:114-128 | the line and column of every offset |
| `Lexer.LineExact` | compilateur/src/lexem.c:114-128 | the line is one more than the number of newlines before |
| `Lexer.ColumnExact` | compilateur/src/lexem.c:114-128 | the column counts the characters since the last newline |
| `Lexer.TryRules` | compilateur/src/lexem.c:132-134 | the first rule in order that matches, and what it leaves |
| `Lexer.Lossless` | compilateur/src/lexem.c:131-166 | the lexeme values concatenate to the covered content |
| `Lexer.MatchConsumes` | compilateur/src/lexem.c:152-163 | a match leaves a suffix, a proper one for a rule with a mandatory group |
| `Lexer.StandsStill` | compilateur/src/lexem.c:131-166 | a rule matches and consumes nothing if and only if it has no mandatory group and the character cannot start it |
| `Lexer.ProductiveAdvances` | compilateur/src/lexem.c:131-166 | rules with a mandatory group get to an end on every content |
| `Lexer.LexemRead` | compilateur/src/lexem.c:86-173 | on a content the loop advances through, the lexemes cover it without gaps, each of the first matching rule; it fails exactly where no rule matches, with the part before covered |
| `Lexer.StaysThere` | compilateur/src/lexem.c:131-166 | on any other content the loop comes to a place where the first matching rule takes nothing |
| `Lexer.RewrittenProductive` | compilateur/src/regexp.c:190 | compiling through the rewriter keeps rules productive |
| `Queue.Enqueue` | compilateur/src/queue.c:41-55 | the new link closes the cycle as the last one, contents appended |
| `Queue.QueueToList` | compilateur/src/queue.c:57-73 | ends, with the contents in order |
| `Queue.EnqueueAll` | compilateur/src/queue.c:41-73 | first in, first out for any sequence |

## Left out

- File and console I/O, colouring, tracing, `malloc`/`free`, unit tests, `asic/`, benches and configuration files.
- `main` as a driver, and `regexp_read`, which cuts a rule file into names and pattern texts.
- Branches and jumps inside the refinement: the ALU adds the fetch PC and the PC is redirected twice, so section 2.5 of the manual is not what a run does; `Departures` gives what happens instead.
- Words with opcode 0 other than zero, which the control logic treats as the NOP.
- The two instructions that have been fetched behind a taken branch or a jump and are executed all the same.
- The instruction memory's size parameter: it is taken as the 512 words that the 9-bit index can reach, and words beyond a loaded file as zero.
- Selector and size values 2'b11, which the control logic never produces.
- Patterns with bytes above 127 (a signed `char` indexes before the array) or an interval that ends at 127 (the filling loop never ends), and NUL bytes in lexeme values, which C strings cut short.
- `atoi` overflow, and overflow of addresses and distances beyond a C `int`.
- A general meaning for texts whose intervals end in an escape: `Patterns.Scan` passes over the extra character as the code does, and `Notation.EscapedEnd` says what that makes of a class with one interval.
- Printing.TextRead: the printed text has one blank behind a mnemonic and one newline behind a line; comments, other spacing and indentation are in `Syntax.AcceptedExact`, which is about acceptance.
- The contents of a link are stored in it rather than behind a `void*`, so two links sharing one object are not modelled; freeing is not modelled either.
- The string utilities beyond equality and slicing.
- Lexer.LexemRead: asks that the loop end (`Lexer.Advances`), which it does not on any other content (`Lexer.StaysThere`); on the rules of the shipped file it always does (`RuleFile.ShippedProductive`).
- Lexer.TryRules: asks that no rule be without groups, because the code aborts on one.
- Matcher.ReMatch: asks for a group where there is input, because the code aborts without one.
- Patterns.ReadGroups: reports failure for a text that ends inside a class or holds no group, where the code appends a group it never filled in, so that what it then matches is indeterminate.
- Patterns.RegexpNew: a text that ends inside a class, or holds no group, makes the code append a group it never filled in; the method reports failure instead.
- EndToEnd.Assemble: says nothing about the file of a program with a register that has no code; neither do `EndToEnd.AssembleText` and `EndToEnd.RunText`.
- AsmLine.Write: says nothing about registers outside 0 .. 31, which the code would print as a null pointer.
