# A verified model of the RISC-V emulator and its debugger

The emulator runs RV32I programs on 256 KiB of memory, with two-level paging, a timer
interrupt and a table of memory-mapped devices; its debugger evaluates expressions and
watches them while a program runs. This project models those parts in Dafny and proves what
they are for. `dafny verify dfyconfig.toml` checks all of it.

Where the source works by changing things in place, so does the model: `Machine.Cpu` holds
register, CSR and memory arrays, `Evaluator.Parser` the token array, `WatchPool.Pool` the
watchpoint nodes and their `next` pointers, `Mmio.Table` the map array, `Rings` the two ring
buffers. Each of those methods is proved to do what a function over values says, and the
properties are proved about the functions.

## The parts

**Expressions** (`Lexer`, `Grammar`, `Parsing`, `Evaluator`, `Printer`, `Failures`, `Levels`,
`Texts`, `ErrorTexts`). The debugger evaluates while it parses. The reference is the other
way round: split the text by the first rule that matches (`Lex`), build the one tree of the
token sequence (`BuildExp`), evaluate the tree (`Eval`). A tree has a node for every way of
going wrong, so failing texts have exactly one tree too, and the error of `Eval` is the first
in left-to-right order. `Parser.Expr` is proved equal to the reference for every text of at
most 256 tokens, errors included; `BuildIff` and `LexIff` say that the reference is the
layered grammar and the rule list; `ScanFailsIff` and `ExprFailsIff` say when each error code
is returned; `RoundTrip` prints abstract expressions with the fewest parentheses
(`FewestParentheses`) and gets their value back. `Levels` writes the grammar a second time,
level by level with the operators of each, and `LevelsAgree` ties it to the priorities;
`Texts` says what texts of literal characters evaluate to (`ShownText` for every tree of that
grammar, `ThreeOperands` for all pairs of operators), and `ErrorTexts` which code each kind
of wrong text gets. Since the result is a function of the text and the machine state alone,
nothing left in the token array by an earlier call can matter.

**Memory** (`Memory`, `Paging`, `Layouts`, `FlatPrograms`). The page tables live in the
memory they translate. If the mapped pages go to distinct frames that no walk reads, paged
memory is flat memory (`PagedRefinesFlat`), and otherwise it is not (`FlatIffSeparated`). A
whole program that stays inside such pages runs as it would without translation
(`ProgramRefinesFlat`).

**Processor** (`Isa`, `Arithmetic`, `Bits`, `Decoder`, `Pattern`, `Dispatch`, `Machine`,
`Instructions`, `Encodings`). `Isa` is RV32I written from sections 2.2 to 2.6 of the RISC-V
Unprivileged ISA, once as the standard has it and once with the emulator's jumps;
`Arithmetic` ties its operations, and those of the expressions, to the integers, and `Bits`
the quotients and sums of the model to the bit operators of the source. `Cpu.ExecOnce`, which
compiles the pattern strings, takes the first that matches, gathers the immediate and
executes the row, is proved to be one step of it. `Instructions` states every instruction
again in integers, bytes and literal numbers (`BranchCycle`, `LoadMeaning`, `StoreMeaning`),
and `Encodings` every encoding as a sum. `DecodeIff` says which words run as which
instruction, `RowsDisjoint` that the order of the rows does not matter.

**Runs** (`Run`, `Interrupts`, `Endings`, `Outcomes`, `Emulator`). The devices are an
arbitrary environment that may, after any instruction, raise the interrupt line or close the
window. The lemmas hold for any instruction cycle that is `Tame`; `CycleIsTame` shows that
the emulator's is. They are about the default build, without `CONFIG_DEBUG`, except for the
two of `Outcomes` that are about the debug command; `Outcomes` says in which state a command
leaves the emulator and where an interrupt goes on. `Emulator` has the loops in place; the
ghost parameters `cycle` and `val` of its methods stand for `Machine.Cycle` and
`Watch.ValueOf`, which their preconditions say they are.

**Watchpoints** (`WatchPool`, `Watch`). The pool is a heap structure with a shape invariant;
`Watch` and `Emulator.ExecuteWatched` are the build with `CONFIG_DEBUG`, where a check
follows every instruction.

**Devices and rings** (`Mmio`, `Rings`).

## What the code does that one might not expect

Each with the exact condition, and with an input that shows it.

- `srai` is accepted with either value of bit 25 although the standard reserves one:
  `Decoder.DecodeIff`, `Decoder.TidyWordClearsBit25`, `Decoder.SraiWithBit25`.
- `jalr` does not clear bit 0 of its target, and no jump or branch traps on a misaligned
  one: `Isa.StepIsStandardIff`, `Isa.JalrDeparts`.
- A word that is no instruction is fetched again, with the word behind it, for the error
  message; that second fetch can itself stop the program: `Endings.InvalidAbortsIff`,
  `Endings.InvalidAtTheEnd`.
- With `CONFIG_DEBUG` a program that has ended can be resumed: a watched value that changes
  with the last instruction overwrites the final state. Since that instruction only moves
  the pc, this takes a watched expression that reads the pc: `Endings.HaltSurvivesIff`,
  `Endings.HaltSurvivesWithoutPc`, `Endings.HaltIsLost`.
- Closing the window is noticed only after one more instruction, because the state is tested
  before the devices are updated, and an ebreak or an invalid word there ends the program
  instead: `Endings.QuitSurvivesIff`, `Endings.QuitIsLost`, `Endings.QuitRunsOn`.
- MSTATUS is 0x1800 after reset and no active instruction writes it, so nothing run from
  reset takes an interrupt: `Interrupts.NoneFromReset`; `Interrupts.TakenAllIff` says when
  a session does.
- The region test against physical memory looks at the two ends only. A region that begins
  before physical memory and ends behind it is accepted: `Mmio.PmemIsFreeIff`,
  `Mmio.LongRegionsCoverPmem`. A region that wraps around contains no address but can still
  be refused: `Mmio.WrappedClash`; for the others the overlap test is exact, `Mmio.ClashIff`.
- Paged memory is not flat if two pages share a frame or a page is mapped to a page table:
  `Paging.FlatIffSeparated`, `Layouts.SharedFrameExample`, `Layouts.TableFrameExample`.
- The register table calls register 0 "$0", which no name token can spell
  (`Printer.NameRoundTrip`); `$0` and `$$0` are recognised separately, as one or two dollar
  signs before the single digit 0.

## Model

| member | source | states |
|---|---|---|
| Lexer.RecogniseIsLongest | src/monitor/idb/expr.c:42-56 | each rule's recogniser takes exactly the longest head of the text that the rule's expression denotes, and nothing when there is none |
| Lexer.FirstRuleIs | src/monitor/idb/expr.c:107-108 | the rule used is the first in the list that matches at the position |
| Lexer.TokensAtMostLength | src/monitor/idb/expr.c:103-158 | a text has no more tokens than characters, so no text of up to 256 characters overruns the token array |
| Grammar.OnlyWholeTreesHaveValues | src/monitor/idb/expr.c:241-252 | evaluation succeeds only on trees without an error node |
| Parsing.BuildIff | src/monitor/idb/expr.c:246-370 | a token sequence has exactly one tree at each priority: the one the parser builds is derivable, its yield is the prefix taken, reading could not have gone on, and no other tree satisfies this |
| Parsing.PrefixIsMaximal | src/monitor/idb/expr.c:323-370 | a successful parse takes the longest prefix of the tokens that is an expression at that priority |
| Parsing.Unambiguous | src/monitor/idb/expr.c:174-205 | the layered grammar is unambiguous, also about where and why reading stops |
| Levels.LevelsAgree | src/monitor/idb/expr.c:185-205 | a tree is derivable above priority p exactly if it is derivable at the p-th of six levels: logical or, then `&&`, then `==` and `!=`, then `+` and `-`, then `*` and `/`, then operands |
| Evaluator.ErrorsAreFinal | src/monitor/idb/expr.c:325-368 | once the left operand has failed, whatever follows leaves the tree's error unchanged |
| Evaluator.Parser.FindRule | src/monitor/idb/expr.c:107-115 | the loop over the rules returns the first matching rule and the length of its match |
| Evaluator.Parser.ScanOne | src/monitor/idb/expr.c:105-156 | one step of the tokenizer records exactly the next token of the reference, or its error |
| Evaluator.Parser.MakeToken | src/monitor/idb/expr.c:98-159 | the token array holds exactly the tokens of the reference, also when an error stops the scan |
| Evaluator.Parser.ParseReg | src/monitor/idb/expr.c:221-235 | a name is a register exactly if it is in the table, and the value is that register's |
| Evaluator.Parser.GetRegister | src/monitor/idb/expr.c:264-295 | the register forms, with one or two dollar signs, yield the value or error of the tree built for them |
| Evaluator.Parser.GetPrefixed | src/monitor/idb/expr.c:254-263 | minus and dereference yield the value or error of the tree built for them |
| Evaluator.Parser.GetParenthesised | src/monitor/idb/expr.c:304-315 | a parenthesised expression yields the value or error of the tree built for it |
| Evaluator.Parser.GetLeftblock | src/monitor/idb/expr.c:246-321 | an operand is evaluated in one pass to the value, error and end position of its tree |
| Evaluator.Parser.ParseExp | src/monitor/idb/expr.c:323-370 | precedence climbing in one pass gives the value, error and end position of building the tree first and evaluating it afterwards |
| Evaluator.Parser.Expr | src/monitor/idb/expr.c:372-391 | for every text of at most 256 tokens the result and the error code are those of lexing, parsing and evaluating separately; the machine is not changed |
| Printer.LexIff | src/monitor/idb/expr.c:98-159 | a text lexes to a token sequence exactly if it is a printing of it, with blanks wherever two words would otherwise run together |
| Printer.NumberRoundTrip | src/monitor/idb/expr.c:207-217 | every 32-bit number, written in decimal or hexadecimal, is read back |
| Printer.NameRoundTrip | src/monitor/idb/expr.c:221-235 | every name in the register table is looked up to its own register; every one but the first, "$0", can be a name token |
| Printer.BracketSound | src/monitor/idb/expr.c:323-370 | an abstract expression with the parentheses its precedences need is derivable and has the expression's value |
| Printer.StripKeepsValue | src/monitor/idb/expr.c:304-315 | parentheses change nothing but how the rest is read: the tree without its groups has the same value |
| Printer.FewestParentheses | src/monitor/idb/expr.c:185-205 | no derivable tree that groups the same operators in the same way has fewer tokens than the printed one, and none but it has as few |
| Printer.GroupsAreNeeded | src/monitor/idb/expr.c:185-205 | a text with fewer tokens than the printing of an expression spells another expression, or none |
| Printer.RoundTrip | src/monitor/idb/expr.c:372-391 | an abstract expression, printed with only the needed parentheses and any spacing that keeps words apart, evaluates to its value, or to the error of evaluating it, division by zero among them |
| Printer.Printable | src/monitor/idb/expr.c:42-56 | every abstract expression has such a printing |
| Printer.ExprSucceedsIff | src/monitor/idb/expr.c:372-391 | the result is w exactly if the text spells a whole tree of the grammar with value w |
| Texts.ExprIsLayered | src/monitor/idb/expr.c:372-391 | the result is w exactly if the text is split into the tokens of a tree of the six levels with value w |
| Texts.ShownText | src/monitor/idb/expr.c:42-57 | every tree of the six levels, its operators, parentheses, prefixes and dollar signs written as literal characters, is evaluated as that tree |
| Texts.SumText | src/monitor/idb/expr.c:333-335 | `a+b` is the sum of a and b |
| Texts.DifferenceText | src/monitor/idb/expr.c:336-338 | `a-b` is the difference |
| Texts.ProductText | src/monitor/idb/expr.c:346-348 | `a*b` is the product |
| Texts.DivisionText | src/monitor/idb/expr.c:339-345 | `a/b` is the quotient, or the error of dividing by zero |
| Texts.EqualText | src/monitor/idb/expr.c:352-354 | `a==b` is 1 if they are equal and 0 otherwise |
| Texts.UnequalText | src/monitor/idb/expr.c:349-351 | `a!=b` is 0 if they are equal and 1 otherwise |
| Texts.BothText | src/monitor/idb/expr.c:355-357 | `a&&b` is 1 if both are nonzero and 0 otherwise |
| Texts.EitherText | src/monitor/idb/expr.c:358-360 | with two vertical bars between them, 0 if both are zero and 1 otherwise |
| Texts.ThreeOperands | src/monitor/idb/expr.c:188-205 | for all pairs of operators, of `a op b op2 c` the one that binds tighter is applied first, and of two that bind alike the left one |
| Texts.RightFirst | src/monitor/idb/expr.c:327-329 | the same for operands with prefixes or parentheses, where the second operator binds tighter |
| Texts.LeftFirst | src/monitor/idb/expr.c:327-329 | and where it does not |
| Texts.Parentheses | src/monitor/idb/expr.c:304-315 | parentheses on either side are evaluated first |
| Texts.NegativeText | src/monitor/idb/expr.c:254-258 | `-a` is a taken from 2^32, and 0 for 0 |
| Texts.DereferenceText | src/monitor/idb/expr.c:237-239 | `*a` is the four bytes from a on, the lowest first, for the addresses 0x80000000 to 0x8003fffc |
| Texts.HexText | src/monitor/idb/expr.c:207-211 | `0x` and hexadecimal digits are that number |
| Texts.CapitalText | src/monitor/idb/expr.c:207-211 | capital digits count as small ones |
| Texts.DigitCodes | src/monitor/idb/expr.c:207-217 | the value of each digit by its character code |
| Texts.CharacterCodes | src/monitor/idb/expr.c:54-56 | the characters of names, hexadecimal and decimal numbers by their codes |
| Texts.RegisterText | src/monitor/idb/expr.c:227-231 | `$` and the i-th name is register i |
| Texts.SpecialNames | src/cpu/reg.c:6 | the names of registers 0 to 4 |
| Texts.TemporaryNames | src/cpu/reg.c:6-9 | the names of the temporaries |
| Texts.ArgumentNames | src/cpu/reg.c:7-8 | the names of the arguments |
| Texts.SavedNames | src/cpu/reg.c:7-9 | the names of the saved registers |
| Texts.PcAndZeroText | src/monitor/idb/expr.c:264-283 | `$pc` is the pc, `$0` and `$$0` are register 0 |
| Texts.SpacedText | src/monitor/idb/expr.c:42 | spaces around numbers and operators make no difference |
| Failures.ScanFailsIff | src/monitor/idb/expr.c:98-159 | the scanner stops with given tokens and code exactly if the text is a printing of those tokens followed by something no rule matches, or by a word of more than 30 characters |
| Failures.ExprFailsIff | src/monitor/idb/expr.c:241-391 | for every text the code is exactly the scanner's, or else that of the unique tree: the first failure in left-to-right eager evaluation, or text left over if nothing else failed |
| ErrorTexts.EmptyText | src/monitor/idb/expr.c:249-252 | the empty text is an invalid expression |
| ErrorTexts.OperatorAlone | src/monitor/idb/expr.c:316-320 | so is a binary operator alone |
| ErrorTexts.PrefixAloneText | src/monitor/idb/expr.c:254-263 | so is a prefix alone |
| ErrorTexts.RightOperandMissing | src/monitor/idb/expr.c:329-330 | and a binary operator without a right operand |
| ErrorTexts.OpenAlone | src/monitor/idb/expr.c:304-321 | and a parenthesis alone |
| ErrorTexts.NotClosed | src/monitor/idb/expr.c:308-309 | and a parenthesis not closed at the end of the text |
| ErrorTexts.WronglyClosed | src/monitor/idb/expr.c:310-313 | another token where the closing parenthesis should be is a structural error |
| ErrorTexts.LeftOver | src/monitor/idb/expr.c:385-388 | so is text left over behind a whole expression |
| ErrorTexts.NameAlone | src/monitor/idb/expr.c:316-320 | a name without a dollar sign is an invalid expression |
| ErrorTexts.DollarAlone | src/monitor/idb/expr.c:264-268 | so are one and two dollar signs at the end of the text |
| ErrorTexts.UnknownRegister | src/monitor/idb/expr.c:289-293 | a name that is not in the table is an invalid register |
| ErrorTexts.NumberIsNoRegister | src/monitor/idb/expr.c:279-287 | so is every number but a single 0 |
| ErrorTexts.ShortNumber | src/monitor/idb/expr.c:139-143 | a number of up to 30 digits is a token |
| ErrorTexts.LongNumber | src/monitor/idb/expr.c:139-140 | a longer one is the error for long tokens |
| ErrorTexts.StrangeCharacter | src/monitor/idb/expr.c:152-155 | a character no rule begins with is an invalid token |
| Arithmetic.ApplyMeaning | src/monitor/idb/expr.c:331-360 | every binary operator in terms of integers modulo 2^32; it fails exactly on a division by zero |
| Arithmetic.ComputeMeaning | src/cpu/inst.c:63-104 | every register operation in terms of integers: sums modulo 2^32, shifts as multiplication and rounding division by powers of two, bit operations digit by digit |
| Arithmetic.ExtendMeaning | src/cpu/inst.c:96-100 | a loaded byte or halfword keeps its low digits and has the range of its signedness |
| Arithmetic.SignedMeaning | src/cpu/inst.c:79 | a word as a signed number, and what adding a signed displacement to it means |
| Memory.WriteAt | include/mainmem.h:15-22 | a store changes exactly the bytes it covers |
| Memory.ReadBack | include/mainmem.h:6-22 | what was stored is loaded, cut to the width |
| Memory.FitsIff | include/mainmem.h:31-33 | an access lies in pmem exactly if it has 1, 2 or 4 bytes and all of them have addresses from 0x80000000 to 0x8003ffff |
| Paging.PagedRefinesFlat | src/memory/memory.c:44-52 | if pages go to distinct frames in pmem that no walk reads, any sequence of loads and stores inside the pages succeeds, returns what a flat byte map returns, and leaves memory equal to the flat map |
| Paging.TranslationNeverChanges | src/cpu/mmu.c:31-56 | no such sequence changes where any mapped address goes |
| Paging.FlatIffSeparated | src/cpu/mmu.c:31-56 | mapped pages act like some flat memory exactly if no two share a frame and none is mapped to a page that a walk reads |
| Layouts.FlatExample | src/cpu/mmu.c:31-56 | page tables in memory for which the hypotheses hold and the pages act flat |
| Layouts.SharedFrameExample | src/cpu/mmu.c:31-56 | two pages on one frame, which do not |
| Layouts.TableFrameExample | src/cpu/mmu.c:31-56 | a page on its own page table, which does not |
| FlatPrograms.CycleMirrors | src/cpu/inst.c:135-138 | a cycle whose fetch, load or store stays inside the pages has the same effect on registers, pc and memory contents as the instruction on a flat memory without translation |
| FlatPrograms.ProgramRefinesFlat | src/cpu/cpu-exec.c:70-83 | a program that stays inside its pages runs, for any number of steps and with interrupts, as on a flat memory; the page tables keep their layout |
| FlatPrograms.ProgramExample | src/cpu/cpu-exec.c:70-83 | such a run exists |
| Paging.WalkUndisturbed | src/cpu/mmu.c:36-55 | a store outside the table pages leaves both levels of every walk as they were |
| Pattern.FastIsNaive | include/cpu.h:81-110 | for patterns of up to 63 significant characters the shifted and masked comparison holds exactly if every character agrees with its bit |
| Pattern.ShiftCountsWildcards | include/cpu.h:93 | shift counts exactly the wildcards at the end of the pattern |
| Pattern.KeyMaskBound | include/cpu.h:91-92 | key and mask stay below two to the number of significant characters, so no 64-bit shift drops a bit |
| Pattern.PatternDecode | include/cpu.h:81-110 | succeeds exactly on well-spelled patterns of at most 63 characters, and its key, mask and shift then accept exactly the words the pattern describes |
| Dispatch.RowMeaning | src/cpu/inst.c:60-118 | each row but the last accepts exactly the words that decode to its instruction |
| Dispatch.RowsDisjoint | src/cpu/inst.c:60-118 | no word matches two of the rows before the last, so their order is irrelevant |
| Dispatch.EncodingSelectsRow | src/cpu/inst.c:60-118 | the encoding of an instruction matches that instruction's row and no other |
| Dispatch.InvMatchesAll | src/cpu/inst.c:127 | the last row accepts every word |
| Dispatch.Table | src/cpu/inst.c:60-127 | the table lists every row once |
| Dispatch.Try | include/cpu.h:140-147 | one test of the chain succeeds exactly on the words of its row |
| Dispatch.FirstMatch | src/cpu/inst.c:58-128 | the chain of tests ends at the row of the decoded instruction, and at the last row for every other word |
| Bits.ImmediateMeaning | src/cpu/inst.c:16-26 | the immediate macros, shift by shift and or by or, give the model's immediates, which are the fields sections 2.2 and 2.3 name |
| Bits.OperandBits | src/cpu/inst.c:31-33 | the bit ranges of rd, rs1 and rs2 |
| Bits.CsrBits | src/cpu/inst.c:34 | the bit range of the csr number |
| Bits.ShiftBits | src/cpu/inst.c:80-104 | the mask on shift amounts is the remainder modulo 32 |
| Bits.IndexBits | src/cpu/mmu.c:15-16 | the two table indices of an address |
| Bits.EntryBits | src/cpu/mmu.c:8-10 | the paging switch, the V bit, the page number of an entry and the address of a page, as the source computes them |
| Bits.AddressBits | src/cpu/mmu.c:54 | frame or-ed with offset is frame plus offset |
| Bits.TranslateMeaning | src/cpu/mmu.c:31-56 | the page walk written in the source's bit operators is the model's, for every translation register, memory and address, faults included |
| Bits.MstatusOperators | src/cpu/intr.c:12-13 | the tests, the or and the and-not on MSTATUS are the model's |
| Decoder.ImmediateFromFields | src/cpu/inst.c:16-26 | the immediates read off the word are those read off the six fields |
| Decoder.RoundTripI | src/cpu/inst.c:16 | an I immediate survives encoding and decoding |
| Decoder.RoundTripS | src/cpu/inst.c:18 | an S immediate survives encoding and decoding |
| Decoder.RoundTripB | src/cpu/inst.c:23-26 | a B offset survives encoding and decoding |
| Decoder.RoundTripU | src/cpu/inst.c:17 | a U immediate survives encoding and decoding |
| Decoder.RoundTripJ | src/cpu/inst.c:19-22 | a J offset survives encoding and decoding |
| Decoder.DecodeEncode | src/cpu/inst.c:29-45 | decoding the encoding of any legal instruction gives the instruction back |
| Decoder.DecodeIff | src/cpu/inst.c:60-118 | a word runs as instruction i exactly if it is the encoding of i, or that encoding of an srai with bit 25 set |
| Decoder.TidyWordClearsBit25 | src/cpu/inst.c:104 | the words concerned differ from an encoding in bit 25 alone |
| Decoder.SraiWithBit25 | src/cpu/inst.c:104 | an srai and the word with bit 25 set that runs as the same |
| Machine.DecodeByRow | src/cpu/inst.c:52-56 | the row a word selects and the operands gathered for it are its decoded instruction, which is legal |
| Machine.ZeroReset | src/cpu/inst.c:130 | writing any register and clearing register 0 afterwards is a register write that ignores register 0 |
| Machine.Cpu.PmemWrite | include/mainmem.h:15-22 | the in-place store of one, two or four bytes |
| Machine.Cpu.VaddrWrite | src/memory/memory.c:49-52 | translates and stores, or leaves memory alone where the source stops or goes to a device |
| Machine.Cpu.DecodeOperand | src/cpu/inst.c:29-45 | the operands of each type, zero for those a type does not set, and the zimm and csr fields |
| Machine.Cpu.ExecAlu | src/cpu/inst.c:60-104 | the register rows do what the instruction set says, once register 0 is reset |
| Machine.Cpu.ExecJump | src/cpu/inst.c:85-116 | jumps and branches do what the instruction set says, also when the base is the link register |
| Machine.Cpu.ExecLoad | src/cpu/inst.c:96-100 | loads do what the instruction set says, through the page walk |
| Machine.Cpu.ExecStore | src/cpu/inst.c:107-109 | stores do what the instruction set says, through the page walk |
| Machine.Cpu.ExecSystem | src/host.c:4-23 | ebreak ends the program with register 10 as its result; an invalid word aborts it |
| Machine.Cpu.DecodeExec | src/cpu/inst.c:47-133 | for every word the new machine state is that of the decoded instruction, or of an abort |
| Machine.Cpu.ExecOnce | src/cpu/cpu-exec.c:53-57 | one cycle of the emulator is one fetch and step of the instruction set with the emulator's jumps, for every state with register 0 clear, and keeps it clear |
| Machine.RunsAs | src/cpu/inst.c:135-138 | the cycle on the encoding of an instruction is its step |
| Instructions.OpMeaning | src/cpu/inst.c:63-82 | a register instruction puts the integer meaning of its operation on rs1 and rs2, in that order, into rd |
| Instructions.OpImmMeaning | src/cpu/inst.c:88-94 | so does one with an immediate, sign-extended |
| Instructions.ShiftImmMeaning | src/cpu/inst.c:102-104 | and a shift by an immediate |
| Instructions.UpperMeaning | src/cpu/inst.c:60-61 | lui puts the immediate into bits 31 to 12, auipc adds the pc |
| Instructions.JumpMeaning | src/cpu/inst.c:85-86 | jal goes to the pc, jalr to the base register displaced by the immediate; the link is the pc of the next instruction |
| Instructions.BranchMeaning | src/cpu/inst.c:111-116 | a branch moves the pc by its immediate exactly if its comparison holds of the two registers as integers, by four otherwise, and changes nothing else |
| Instructions.BranchCycle | src/cpu/inst.c:111-116 | the same of a whole cycle on the encoded word, for each of the six comparisons |
| Instructions.EbreakMeaning | src/cpu/inst.c:118 | ebreak ends the program with its own address and register 10, written as 10, as the result |
| Instructions.InvalidMeaning | src/host.c:11-23 | a word that is no instruction aborts the program with its own address and the result -1, written as 0xffffffff, if the word behind it can be fetched, and otherwise the cycle does not complete |
| Instructions.LoadMeaning | src/cpu/inst.c:96-100 | lb, lbu, lh, lhu and lw put exactly 1, 1, 2, 2 and 4 bytes into rd, the lowest first, extended by sign or zero |
| Instructions.LoadOutside | src/cpu/inst.c:96-100 | where they are not all in pmem the load does not complete |
| Instructions.StoreMeaning | src/cpu/inst.c:107-109 | sb, sh and sw set exactly 1, 2 and 4 bytes to the lowest bytes of rs2 and change nothing else but the pc |
| Encodings.OpEncoding | src/cpu/inst.c:63-82 | the encoding of each register instruction as one number plus what each operand adds to it |
| Encodings.ShiftEncoding | src/cpu/inst.c:102-104 | of the shifts by an immediate |
| Encodings.OpImmEncoding | src/cpu/inst.c:88-94 | of the other instructions with an immediate |
| Encodings.LoadEncoding | src/cpu/inst.c:96-100 | of the loads |
| Encodings.JalrEncoding | src/cpu/inst.c:86 | of jalr |
| Encodings.StoreEncoding | src/cpu/inst.c:107-109 | of the stores |
| Encodings.UpperEncoding | src/cpu/inst.c:60-61 | of lui and auipc |
| Encodings.BranchEncoding | src/cpu/inst.c:111-116 | of the branches, with the four fields of the offset |
| Encodings.JalEncoding | src/cpu/inst.c:85 | of jal, with the four fields of the offset |
| Isa.StepIsStandardIff | src/cpu/inst.c:85-116 | a step is the standard's exactly if the instruction does not jump or its target, before bit 0 is cleared, is a multiple of four |
| Isa.JalrDeparts | src/cpu/inst.c:86 | two jalr steps that are not: an odd target is kept, and a half-word target raises no exception |
| Machine.CycleIsStandardIff | src/cpu/inst.c:135-138 | the same of a whole cycle on any encoded instruction |
| Run.StepKeeps | src/cpu/inst.c:58-130 | no instruction touches a CSR, the interrupt line or the count, or leaves register 0 nonzero |
| Run.CycleIsTame | src/cpu/inst.c:135-138 | the same of the whole cycle, invalid words included |
| Run.ExecuteSplit | src/cpu/cpu-exec.c:70-83 | a run of a + b steps is a run of a steps and, unless something ended it, one of b more |
| Run.CutShortIff | src/cpu/cpu-exec.c:78 | without a quit, a run stops early exactly if it leaves the running state, and then it has ended or aborted |
| Run.RunComposition | src/cpu/cpu-exec.c:100-132 | cpu_exec(a) followed by cpu_exec(b) is cpu_exec(a + b), in processor, memory, emulator state and count |
| Run.CommandsAreOne | src/cpu/cpu-exec.c:100-132 | any nonempty sequence of commands is one command of their sum |
| Run.FinalIsAbsorbing | src/cpu/cpu-exec.c:102-107 | after an end or abort no sequence of commands changes anything |
| Run.CountGrows | src/cpu/cpu-exec.c:74 | in a run the count grows by exactly the number of instructions executed, modulo 2^64 |
| Run.CountGrowsAll | src/cpu/cpu-exec.c:74 | and over any sequence of commands |
| Run.ZeroStaysZeroAll | src/cpu/inst.c:130 | register 0 is zero after every sequence of commands that starts with it zero |
| Outcomes.TickMeaning | src/cpu/cpu-exec.c:79-81 | after the device update a pending interrupt is taken exactly if MIE is set: MEPC is the pc, MCAUSE the timer cause, and the program goes on at the address in MTVEC; otherwise nothing changes but the line and, if the window was closed, the state |
| Outcomes.RaisedForAnyCause | src/cpu/intr.c:6-21 | the interrupt entry for any cause: all but the timer resume behind the instruction |
| Outcomes.RunEnds | src/cpu/cpu-exec.c:70-83 | a run ends running after all its steps, quit after a window was closed, ended or aborted |
| Outcomes.RunIff | src/cpu/cpu-exec.c:70-83 | a run ends with a result exactly if there is a sequence of states that begins with the first, each joined to the next by one instruction, the count and the end of the round, and is either n rounds long or followed sooner by an instruction that ends the program; the result is the last state |
| Outcomes.CheckpointAt | src/cpu/cpu-exec.c:74-77 | the k-th check of a run with CONFIG_DEBUG sees the state right after the instruction of the k-th round, before the devices are updated; there is none after the last round or an instruction that does not complete |
| Outcomes.CommandEnds | src/cpu/cpu-exec.c:100-132 | a command on a program that is not over leaves the emulator stopped, quit, ended or aborted; quit only if a window was closed, stopped only after all its steps; everything else is as the run leaves it |
| Outcomes.StoppedIff | src/cpu/cpu-exec.c:115-117 | while no window is closed it is left stopped exactly if every step was executed, and otherwise ended or aborted |
| Outcomes.EndedStaysEnded | src/cpu/cpu-exec.c:102-107 | commands on an ended or aborted program do nothing |
| Outcomes.DebugCommandEnds | src/cpu/cpu-exec.c:100-132 | with CONFIG_DEBUG a command is cut short by a check and leaves the emulator stopped, or is the command without CONFIG_DEBUG |
| Outcomes.DebugStoppedIff | src/cpu/cpu-exec.c:115-120 | and while no window is closed it is left stopped exactly if a check cut it short or every step was executed |
| Interrupts.RaisedMeaning | src/cpu/intr.c:6-21 | a taken interrupt leaves MEPC at the resume address, the cause in MCAUSE, MPIE set and MIE clear, and every other CSR alone |
| Interrupts.MaskedRun | src/cpu/intr.c:23-29 | with interrupts off none is taken, no CSR changes and a pending one stays pending |
| Interrupts.AtMostOneInterrupt | src/cpu/cpu-exec.c:70-83 | every run takes at most one interrupt, only if it started with them on, and its final CSRs are the first ones with that interrupt recorded |
| Interrupts.AtMostOneInSession | src/cpu/cpu-exec.c:100-132 | and so does any sequence of commands |
| Interrupts.TakenIff | src/cpu/cpu-exec.c:79-81 | a run takes an interrupt exactly if interrupts are on and one is pending or raised by one of its device updates; otherwise the line keeps what it saw |
| Interrupts.TakenAllIff | src/cpu/cpu-exec.c:79-81 | and so does any sequence of commands |
| Interrupts.SatpAndMtvecAreFixed | src/cpu/intr.c:6-21 | no sequence of commands changes the translation register or the handler address |
| Interrupts.NoneFromReset | src/init.c:20-24 | no sequence of commands from the reset value of MSTATUS takes an interrupt |
| Emulator.QueryIntr | src/cpu/intr.c:23-29 | answers a pending interrupt once, if it is enabled |
| Emulator.RaiseIntr | src/cpu/intr.c:6-21 | leaves the CSRs of the interrupt entry and returns the handler address |
| Emulator.EndStep | src/cpu/cpu-exec.c:79-81 | devices, query and entry together are one tick of the model |
| Emulator.Execute | src/cpu/cpu-exec.c:70-83 | the loop in place is the run function, for every step count and environment |
| Emulator.CpuExec | src/cpu/cpu-exec.c:100-132 | the command in place is the command of the run model |
| Emulator.CommandsCompose | src/cpu/cpu-exec.c:100-132 | a sequence of commands is one command, for the emulator's own cycle |
| Emulator.CpuExecWatched | src/cpu/cpu-exec.c:100-132 | the command with CONFIG_DEBUG, processor and watchpoint nodes in place, is the watched command of the run model |
| Emulator.ExecuteWatched | src/cpu/cpu-exec.c:70-83 | the loop with CONFIG_DEBUG, processor and watchpoint nodes in place, is the watched run function |
| Watch.CheckTwice | src/monitor/idb/watchpoint.c:146-160 | a check leaves every remembered value current: an immediate second check changes and reports nothing |
| Outcomes.CheckMeaning | src/monitor/idb/watchpoint.c:146-160 | a check remembers the value of every expression, and stops the emulator exactly if one differs from the value remembered before |
| Outcomes.ErrorsCountAsZero | src/monitor/idb/watchpoint.c:82-96 | a watched expression has its value, no value if it stops the program, and 0 for any other error |
| Watch.WatchedRun | src/cpu/cpu-exec.c:70-83 | every watched run is the ordinary run, cut at the first instruction after which some watched value differs from the one last seen or cannot be computed |
| Watch.ValueReads | src/monitor/idb/expr.c:219-239 | an expression reads registers, memory and, only by its name, the pc |
| Endings.EndingMovesOnlyPc | src/cpu/inst.c:118-127 | an instruction that ends or aborts the program adds four to the pc and changes nothing else an expression can read |
| Endings.CycleStopsIff | src/cpu/inst.c:118-127 | a cycle makes the emulator's state final exactly if the word at the pc is an ebreak or no instruction |
| Endings.EndsIff | src/cpu/inst.c:118-127 | the next cycle ends or aborts the program exactly if such a word is at the pc and, if it is no instruction, the word behind it can be fetched |
| Endings.HaltSurvivesIff | src/cpu/cpu-exec.c:46-51 | with current values, an end or abort survives the check that follows it exactly if every watched value is the same with the pc four further |
| Endings.HaltSurvivesWithoutPc | src/cpu/cpu-exec.c:46-51 | so it always does if no watched expression names the pc |
| Endings.WatchedPcUndoesHalt | src/monitor/idb/watchpoint.c:146-160 | and never does while $pc is watched |
| Endings.HaltIsLost | src/monitor/idb/watchpoint.c:154-157 | a program of one ebreak whose end is lost |
| Endings.QuitAtLastUpdate | src/device/device.c:32-34 | a window closed in the last device update of a run leaves the emulator quit |
| Endings.QuitIsLate | src/cpu/cpu-exec.c:72-82 | a window closed earlier lets exactly one more instruction run |
| Endings.QuitSurvivesIff | src/cpu/cpu-exec.c:72-82 | the emulator is left quit exactly if the word at the pc is neither an ebreak nor an invalid word |
| Endings.QuitIsLost | src/cpu/cpu-exec.c:72-82 | a program of two instructions whose quit becomes an end |
| Endings.QuitRunsOn | src/cpu/cpu-exec.c:102-107 | the next command runs on from a quit as from a stop |
| Endings.InvalidAbortsIff | src/host.c:11-23 | a word that is no instruction aborts the program exactly if the word behind it can be fetched |
| Endings.InvalidAtTheEnd | src/host.c:14-15 | in the last word of memory it does not |
| Watch.ExprIgnoresEmu | src/monitor/idb/watchpoint.c:82-96 | the value of an expression does not depend on the emulator state that a check may set |
| WatchPool.Pool.constructor | src/monitor/idb/watchpoint.c:9-18 | the initial pool: nothing active, all 32 nodes free in order |
| WatchPool.Pool.EachNodeOnce | src/monitor/idb/watchpoint.c:6-7 | in every valid pool each node is on exactly one of the two lists, once |
| WatchPool.Pool.NewWp | src/monitor/idb/watchpoint.c:22-32 | the first free node becomes the first active one; null if there is none |
| WatchPool.Pool.Predecessor | src/monitor/idb/watchpoint.c:39-42 | the search returns the active node before wp, or null if there is none |
| WatchPool.Pool.Unlink | src/monitor/idb/watchpoint.c:47-52 | bypassing the k-th active node leaves a chain of the others in order |
| WatchPool.Pool.FreeWp | src/monitor/idb/watchpoint.c:34-60 | an active node moves to the front of the free list and the others keep their order; any other argument changes nothing |
| WatchPool.Pool.EraseByNo | src/monitor/idb/watchpoint.c:106-124 | removes the active node with that number, and otherwise changes nothing |
| WatchPool.Pool.NumbersDiffer | src/monitor/idb/watchpoint.c:9-14 | a number names at most one active node |
| WatchPool.Pool.EraseByList | src/monitor/idb/watchpoint.c:126-144 | removes exactly the cnt-th active node, counted from 1, and otherwise changes nothing |
| WatchPool.Pool.Add | src/monitor/idb/watchpoint.c:98-104 | a free node becomes the first active one, with the expression and its present value; no other node's expression or value changes |
| WatchPool.Evaluate | src/monitor/idb/watchpoint.c:82-96 | evaluates, remembers and compares; a reported error leaves the remembered value alone, an unreported one counts as 0 |
| WatchPool.Pool.CheckWp | src/monitor/idb/watchpoint.c:146-160 | the check in place is the check of the watch model on the active list; shape and expressions stay |
| WatchPool.ChainIff | src/monitor/idb/watchpoint.c:9-18 | a null-terminated chain is its sequence of nodes, link by link |
| WatchPool.ChainUnique | src/monitor/idb/watchpoint.c:9-18 | the heads determine the two lists |
| WatchPool.Activated | src/monitor/idb/watchpoint.c:22-32 | taking the first free node keeps every node on exactly one list |
| WatchPool.Released | src/monitor/idb/watchpoint.c:34-60 | giving back an active node keeps every node on exactly one list |
| WatchPool.WithoutMeaning | src/monitor/idb/watchpoint.c:47-52 | a sequence without its k-th element keeps all others in order |
| Mmio.Table.AddMmioMap | src/device/mmio.c:75-93 | a registration appends its region exactly if there is room, neither end is in pmem and the overlap test finds nothing; regions stay disjoint |
| Mmio.Table.FindMapidByAddr | include/device/map.h:22-31 | the index returned is that of the one region with the address, and -1 exactly if there is none |
| Mmio.Table.FetchMmioMap | src/device/mmio.c:63-66 | the region with the address, or null exactly if there is none |
| Mmio.InsideIff | src/device/mmio.c:76-77 | a region of len bytes holds exactly the len addresses from addr on, if it does not wrap around |
| Mmio.AcceptedApart | src/device/mmio.c:81-85 | an accepted region shares no address with an earlier one, even where one wraps around |
| Mmio.ClashIff | src/device/mmio.c:82 | for regions that do not wrap around the overlap test is exact |
| Mmio.WrappedClash | src/device/mmio.c:82 | a wrapping region can be refused although it shares no address |
| Mmio.AdmitAllIff | src/device/mmio.c:75-93 | a sequence of regions without wrap-around is accepted exactly if there are at most 16, no two share an address and none begins or ends in pmem |
| Mmio.PmemIsFreeIff | src/device/mmio.c:78 | an accepted region avoids physical memory exactly unless it begins before it and ends behind it |
| Mmio.ShortRegionsAvoidPmem | src/device/mmio.c:78 | so no region of up to CONFIG_MSIZE + 1 bytes meets it |
| Mmio.LongRegionsCoverPmem | src/device/mmio.c:78 | one byte more is accepted over all of it, and so is a region of length 0 at address 0 |
| Rings.Trace.Write | src/cpu/cpu-exec.c:39-44 | one more line, cut to its row, is remembered, and the oldest dropped when 255 are there |
| Rings.Trace.Display | src/cpu/cpu-exec.c:21-38 | what is shown is the last 255 lines written, in order; the ring looks empty exactly if nothing was ever written |
| Rings.KeyQueue.Enqueue | src/device/keyboard.c:36-40 | appends to the queue; the overflow assertion fires exactly if 1023 keys are waiting |
| Rings.KeyQueue.Dequeue | src/device/keyboard.c:42-49 | removes the oldest key, or returns 0 from an empty queue |
| Rings.KeyQueue.SendKey | src/device/keyboard.c:51-58 | queues the mapped code, marked on release, only while the emulator runs and for a nonzero scan code |
| Rings.ReleaseMark | src/device/keyboard.c:54 | a released key is its code with bits 12 to 15 set |
| Rings.LastMeaning | src/cpu/cpu-exec.c:21-38 | what the display shows, index by index: the last lines in the order written |

## Left out

- Literals of 2^32 and more: sscanf leaves them to the C library; `Grammar.Number` takes them modulo 2^32.
- The regular expression library: `Lexer` describes the listed expressions directly, on characters, with ASCII letters and digits as word characters.
- Device accesses: a load, store, fetch, table read or dereference that does not lie wholly in pmem is `None` or `Died` in the model, as is a panic; device callbacks and the registers behind a region are not part of this model.
- Evaluator.Parser.GetPrefixed: a dereference of a device address is `Died`, where the source returns what the device returns.
- Machine.Cpu.VaddrWrite: a store to a device and a panic are one failure value.
- Machine.Cpu.ExecLoad: a load from a device is a failure value, where the source returns what the device returns.
- Machine.Cpu.ExecStore: a store to a device is a failure value, where the source calls the device.
- Rings.Trace.Write: a line of 128 characters or more is cut to its row, as strncpy does, but the model does not show that such a row has no terminating zero; the lines the emulator writes are far shorter.
- Accesses that cross a page are translated by their first byte, as in the source; `Paging.PagedRefinesFlat` covers only accesses inside a page.
- Permission bits and superpages: the source does not look at them.
- Zicsr, the M extension, ecall and mret: commented out in the source. decode_operand's csr and zimm results feed only those rows.
- Host shifts by 32 or more: the last row's pattern has 32 wildcards and the source shifts a 32-bit word by 32, which C leaves undefined; the model shifts to zero.
- The host is taken to be little-endian and pmem to be an array of bytes indexed from 0.
- Texts: a zero character cannot occur in a C string and is an ordinary unmatched character here; expressions longer than a watchpoint's array are excluded by `WatchPool.Pool.Add`.
- WatchPool.Pool.Add: requires a free node, because the source dereferences the null it gets otherwise.
- Emulator.ExecuteWatched: writing the trace line belongs to `Rings.Trace` and is not repeated in the loop, because formatting the line is not part of this model.
- Emulator.CpuExec: timing, step printing and messages are not part of this model; n is any number, not only one below 2^64.
- Real devices (serial, timer, display, keyboard scan), the window, the command line, the log and image loading: input and output.
- new_space, map_read, map_write and check_bound: they add only a bump allocator and one-branch accessors.
- watchpoint_display and isa_reg_display: they only print.
