# UrclSharp in Dafny

UrclSharp assembles URCL, a small register-machine assembly language, into
a .NET method built with Reflection.Emit. This project models its core in
Dafny and proves properties of that model:

- **the assembler front end**:
  - block-comment removal and the line pipeline;
  - the header loop with its pending label, two label tables, DW list and
    instruction list;
  - the BITS, MINREG, MINHEAP, MINSTACK and DW directives;
  - the literal and operand parsers;
  - the word-fit checks;
  - the two passes that rewrite operands, append HLT and label every
    instruction, with `GenerateLabel`.
- **the operand algebra**: the Operand records, what reading and writing
  each kind means, and their printed forms.
- **the run-time meaning of the generated method**:
  - the start-up state the prologue builds (the DW words, then
    (MINHEAP + MINSTACK) * 2 zero words, and SP at the memory size narrowed
    to W bits);
  - the dispatch table;
  - one step per case of `Instruction.Emit`'s switch, for W = 8, 16, 32
    and 64.

The assembler is modelled twice: as functions per stage (`Lexer`,
`HeaderLoop`, `Resolution`, `Pipeline`), and as the class that runs them in
place (`Assembly.Assembler`), whose methods are proved to leave the state
the functions describe. Likewise the generated method is modelled as the
function `Semantics.Step` and as the class `Machines.Machine`, which holds
the registers and the memory in arrays and updates them in place.

Values inside the generated code live on the runtime's evaluation stack.
They are 32 bits wide for W <= 32 and 64 bits wide at W = 64, and only a
store into a register or a memory cell narrows them to W bits (`Words`).
Loads follow the code exactly:

- a byte immediate is pushed with `ldc.i4.s`, so at W = 8 it sign-extends;
- `ldelem.i1` and `ldelem.i2` sign-extend memory words at W = 8 and W = 16;
- registers load zero-extended.

C# masks shift counts (section 12.11 of ECMA-334), so `1uL << 64 == 1`.
The pseudo-immediates and the BRP/BRN mask follow from that.

Modules, one per file: `Wrappers`, `Text`, `Words`, `Numbers`, `Operands`,
`Lexer`, `Directives`, `Programs`, `HeaderLoop`, `Resolution`, `Pipeline`,
`Assembly`, `Semantics`, `Alu`, `Behaviour`, `Startup`, `Machines`.

## Where the code and its documented design differ

The model follows the code in each of these cases:

- `BITS >= n` takes the *last* supported width that is at least n, which is
  always 64, not the smallest.
- Generated labels are named `<compiler_generated>k`.
- `PC` and `SP` operands are yielded and then hit the unconditional parse
  error, so any operand list containing them fails.
- The fit bound is 2^W - 1 only at W = 8 and 16. At W = 32 and 64 the int
  arithmetic wraps to 2^64 - 1, so nothing is rejected there.
- MSB and SMSB are 0 at W = 64, and SMAX wraps to 2^64 - 1.
- The BRP/BRN mask is 0 at W = 64, so there BRP always jumps and BRN never
  does.
- Carry is the overflow of `add.ovf.un` on stack values. That add is
  32-bit below W = 64, so two register words never carry at W = 8 or 16,
  while sign-extended byte immediates can.
- A RelativeNum whose target lies outside the instruction list makes
  `GenerateLabel` index out of range, which is fatal.
- A label written twice on instructions is fatal at code generation: the
  dispatch table dereferences an IL label that was never defined.
- A line that ends in a single '/' loses that slash. The comment cut
  searches `line + "//"`, so the final slash and the first appended one
  form a match: "HLT /" becomes "HLT " (`Lexer.TrailingSlashCut`).
- SRS and BSS are arithmetic shifts of the stack value, not of the W-bit
  word. At W = 8 and 16 a register word is a non-negative int32, so both
  act as logical shifts there: SRS of 128 at W = 8 stores 64
  (`Alu.NarrowSignedShiftIsLogical`, `Alu.ByteShiftLosesSign`).

## Model

| member | source | states |
|---|---|---|
| Text.IndexOf | Program.cs:9 | the result is the first position of the pattern, or -1 exactly when it does not occur |
| Text.LastIndexOf | Program.cs:425 | the result is the last position of the pattern, or -1 exactly when it does not occur |
| Text.TrimStart | Program.cs:41 | the result is a suffix of the input that starts with no space; what was cut is blank |
| Text.TrimEnd | Program.cs:9 | the result is a prefix of the input that ends with no space; what was cut is blank |
| Text.Trim | Program.cs:9 | both ends of the result are non-space, and the result is empty exactly when the input is blank |
| Text.TrimSlice | Program.cs:9 | Trim keeps a contiguous slice of its input, starting after the leading spaces |
| Text.NatToStringInjective | Program.cs:262 | distinct numbers give distinct decimal texts, so distinct indices give distinct generated names |
| Words.ShiftCount | Program.cs:140-145 | a C# shift count is reduced modulo the width of the shifted type |
| Words.StackImmediate | Instructions.cs:16-37 | the pushed immediate is a stack value whose low W bits are the immediate's low W bits |
| Words.ByteImmediate | Instructions.cs:20-23 | at W = 8 the byte is sign-extended to 32 bits, and narrowing gives the byte back |
| Words.ShortImmediate | Instructions.cs:24-27 | at W = 16 the value is pushed as a non-negative int32 holding the 16-bit word |
| Words.LoadElement | Instructions.cs:64-89 | a loaded memory word is a stack value that narrows back to the word, and equals it below 2^(W-1) |
| Words.SignExtendTrunc | Instructions.cs:68-76 | sign extension keeps the low bits and leaves values below the sign bit unchanged |
| Words.ToInt32Identity | Instructions.cs:100 | conv.i4 leaves a value that fits in an int32 unchanged |
| Words.TruncTrunc | Instructions.cs:38-63 | narrowing to W bits after a wider narrowing is narrowing to W bits |
| Words.Bitwise | Instructions.cs:305-343 | AND, OR and XOR over n bits give an n-bit value |
| Words.BitwiseBit | Instructions.cs:305-343 | every bit of AND, OR or XOR is that operation on the operands' bits |
| Words.ComplementValue | Instructions.cs:300-303 | NOT over n bits is 2^n - 1 minus the low n bits |
| Words.BitwiseTrunc | Instructions.cs:305-343 | narrowing a bitwise result equals the bitwise operation on narrowed operands |
| Words.ComplementTrunc | Instructions.cs:300-343 | narrowing a complement equals the complement of the narrowed operand |
| Words.Pow2Add | Program.cs:140-145 | 2^(a+b) = 2^a * 2^b |
| Words.Signed | Instructions.cs:350-375 | the signed reading of an n-bit word lies in the int range of n bits and has the same low n bits |
| Words.SignedOfTrunc | Instructions.cs:350-375 | the signed reading of the low n bits gives back any value of the signed n-bit range |
| Words.StackInt | Instructions.cs:16-37 | a pushed constant is a stack value: a value that fits is kept, and the low W bits always survive |
| Words.ToInt32 | Operands.cs:66-70 | conv.i4 gives an int32 with the same low 32 bits, and keeps a value that fits |
| Words.ToNative | Instructions.cs:362-380 | conv.i gives a native int with the same low bits, and keeps a value below the sign bit |
| Words.AndOne | Instructions.cs:449-460 | AND with 1 is the low bit |
| Words.AndTopBit | Instructions.cs:469-480 | AND with a mask whose low k + 1 bits are the bit k is zero exactly when a (k + 1)-bit value is below 2^k |
| Words.QuotientBound | Instructions.cs:286-298 | the unsigned quotient and remainder are at most the dividend |
| Words.CarryWraps | Instructions.cs:429-448 | an n-bit sum overflows exactly when its low n bits are less than the first term |
| Words.AllOnesWord | Instructions.cs:483-490 | the all-ones ulong narrowed to W bits is the largest W-bit word |
| Numbers.ConvertUnsigned | Program.cs:376-401 | a converted number fits the width, and the text was non-empty and unsigned |
| Numbers.Radix | Program.cs:403-419 | 0x, 0b and 0o select base 16, 2 and 8 and are consumed; anything else is base 10 with nothing consumed (both directions) |
| Numbers.ParseInt | Program.cs:397-401 | a parsed header number is below 2^32 |
| Numbers.ParseLong | Program.cs:376-380 | a parsed literal is below 2^64 |
| Numbers.NextWhitespace | Program.cs:369-373 | the result is the first space, or the length when there is none |
| Numbers.TryParseImmediate | Program.cs:348-367 | no literal exactly when the text is blank or starts with neither a digit nor a quoted ASCII char; a digit-led token is ParseLong of the token and the rest is the trimmed remainder; a char literal is its code and consumes 3 characters; a bad number is reported |
| Numbers.DecimalRoundTrip | Program.cs:397-401 | the decimal text of n is all digits and has value n |
| Numbers.ParseDecimal | Program.cs:397-401 | ParseInt/ParseLong of the decimal text of a value that fits gives the value |
| Numbers.ScanDecimal | Program.cs:352-358 | a decimal literal before a space is scanned as that value, and the scan resumes at the trimmed remainder |
| Operands.Token | Program.cs:283-285 | the text after a sigil token is strictly shorter than the input |
| Operands.ToStringSigil | Operands.cs:12-55 | each operand kind prints with its own first character ($, #, ~, *, ., &, %), and an immediate with a digit |
| Operands.ParseTokenThen | Operands.cs:12-55 | a printed operand followed by a space and printed operands parses as that operand before them |
| Operands.ParseOne | Program.cs:271-337 | one parsed operand is of a parser kind and consumes at least one character |
| Operands.ParseSigil | Program.cs:278-337 | a sigil operand is of a parser kind and consumes input; a token with no sigil fails |
| Operands.ParseRelativeNum | Program.cs:296-305 | a "~" token gives a RelativeNum and consumes input |
| Operands.ParseOperandList | Program.cs:269-339 | every parsed operand is of a parser kind, and blank text gives no operands |
| Operands.ParseOperands | Program.cs:269-339 | the loop over the text yields exactly ParseOperandList's result |
| Operands.SigilToken | Program.cs:283-285 | a sigil token ends at the first space, and the rest is left-trimmed |
| Operands.ParseSigilNumber | Program.cs:280-295 | "$n" parses as GeneralRegister(n) and "#n" as MemoryLocation(n) |
| Operands.ParseSigilName | Program.cs:306-319 | "&name" parses as ImmediateDef(name) and "%name" as Port(name) |
| Operands.ScanRelative | Program.cs:296-305 | "~", any sign character and a number parse as the number cast to int32, negated for '-' |
| Operands.RelativeCasts | Program.cs:300-301 | the int32 casts give back any non-zero int32 offset from its sign and magnitude |
| Operands.RelativeText | Operands.cs:30-33 | a non-zero offset prints as "~", its sign and its magnitude |
| Operands.ParseRelative | Operands.cs:30-33 | a printed non-zero RelativeNum parses back to itself |
| Operands.ParsePrintedOne | Operands.cs:12-55 | a printable operand parses back from its ToString form |
| Operands.ParsePrinted | Operands.cs:12-55 | printing a list of printable operands and parsing it gives the same list |
| Lexer.RemoveMultiLineComments | Program.cs:422-435 | the loop in place gives exactly Uncommented's result: no "/*" is left, and an unbalanced "/*" is an error |
| Lexer.Uncommented | Program.cs:422-435 | a result holds no "/*" and is no longer than the input |
| Lexer.UncommentedEnds | Program.cs:425-433 | text without "/*" is returned unchanged, and a last "/*" with no "*/" after it is fatal |
| Lexer.UncommentedStep | Program.cs:425-433 | one turn of the loop cuts from the last "/*" to the first "*/" after it, keeping a line break when the comment held one |
| Lexer.UncommentedOne | Program.cs:422-435 | a text with exactly one comment loses that comment and keeps everything around it |
| Lexer.SplitLines | Program.cs:6 | at least one line, and no line holds a line break |
| Lexer.FirstBreak | Program.cs:6 | the first line ending at or after a position, with none before it |
| Lexer.SplitLinesJoin | Program.cs:6 | joining the lines with the newline gives the text with every line ending replaced by it |
| Lexer.Normalize | Program.cs:8 | every whitespace character becomes ' ', everything else is kept, and the length is unchanged |
| Lexer.CutLineComment | Program.cs:9 | the result is the prefix of the line before its first "//", or before a final single '/', or the whole line when there is neither |
| Lexer.CutAt | Program.cs:9 | the cut position is the first "//" of the line or the end, or a final single '/' |
| Lexer.TrailingSlashCut | Program.cs:9 | "HLT /" is cut to "HLT ": the appended "//" makes a lone final slash a comment |
| Lexer.CutSpaced | Program.cs:8-9 | after normalisation and comment cutting, ' ' is the only whitespace |
| Lexer.LogicalLine | Program.cs:8-10 | a kept line is non-empty, trimmed, free of "//" and has ' ' as its only whitespace |
| Lexer.LogicalLines | Program.cs:6-10 | every kept line is clean, and no more lines come out than went in |
| Lexer.LogicalLinesAppend | Program.cs:8-10 | the pipeline over a concatenation is the concatenation of the pipelines |
| Lexer.LogicalLinesOne | Program.cs:8-10 | one line gives its cleaned form, or nothing when that is empty |
| Lexer.LogicalLinesMembers | Program.cs:8-10 | the kept lines are exactly the non-empty cleaned input lines |
| Lexer.LogicalLinesHead | Program.cs:8-10 | the first line is kept when its cleaned form is non-empty, and everything kept from the rest is kept |
| Lexer.Lines | Program.cs:6-10 | the front end fails exactly when comment removal fails, and otherwise hands on the clean lines of the split, uncommented text |
| Directives.LargestWidthAtMost | Program.cs:76 | the result is the largest supported width at most m |
| Directives.Bits | Program.cs:53-78 | BITS yields 0 or a supported width |
| Directives.BitsExact | Program.cs:54-59 | a number (after an optional "==") is accepted exactly when it is a supported width, and is then the width |
| Directives.BitsAtLeast | Program.cs:60-68 | ">= n" fails exactly when n is no number or n > 64, and otherwise gives 64 |
| Directives.BitsAtMost | Program.cs:69-77 | "<= n" fails exactly when n is no number or n < 8, and otherwise gives the largest width at most n |
| Directives.BitsOther | Program.cs:53-78 | any other text leaves the word length 0 |
| Directives.FitBoundValues | Program.cs:118-123 | the fit bound is 2^W - 1 at W = 8 and 16, and 2^64 - 1 at W = 32, 64 and 0 |
| Directives.FitBoundSmall | Program.cs:120 | the int expression at W = 8 and 16 evaluates to 2^W - 1 |
| Directives.FitBoundWide | Program.cs:120 | when the shift reaches the int sign bit, the product wraps and the bound becomes 2^64 - 1 |
| Directives.FitBound | Program.cs:118-123 | the fit bound, computed as a ulong, is below 2^64 |
| Directives.HeapMax | Program.cs:125 | the uint HeapMax is below 2^32, and is (MINHEAP + MINSTACK) * 2 when that does not wrap |
| Directives.PseudoValue | Program.cs:135-146 | a pseudo-immediate has a value exactly when its name is one of the eleven |
| Directives.PseudoHeaderValues | Program.cs:124-139 | BITS, MINREG, MINHEAP and MINSTACK give the settings, and HEAP gives (MINHEAP + MINSTACK) * 2 |
| Directives.PseudoMax | Program.cs:142 | MAX is 2^W - 1 at every width |
| Directives.MaxValue | Program.cs:142 | the shift-and-double expression of MAX is 2^W - 1 |
| Directives.PseudoHalves | Program.cs:144-145 | LHALF is 2^(W/2) - 1 and UHALF is that shifted up by W/2 |
| Directives.HalfValues | Program.cs:144-145 | the LHALF and UHALF expressions evaluate to those values |
| Directives.PseudoSignBits | Program.cs:140-143 | below 64 bits MSB, SMSB and SMAX are 2^(W-1), 2^(W-2) and 2^(W-1) - 1 |
| Directives.SignBitValues | Program.cs:140-143 | the MSB, SMSB and SMAX expressions evaluate to those values below 64 bits |
| Directives.PseudoSignBits64 | Program.cs:140-143 | at 64 bits MSB and SMSB are 0 and SMAX is 2^64 - 1 |
| Directives.Table | Program.cs:140-145 | every shift expression at W = 8, 16 and 32 |
| Directives.Table64 | Program.cs:140-145 | every shift expression at W = 64, where 1uL << 64 is 1 |
| Directives.ShiftSmall | Program.cs:144 | a ulong left shift that does not overflow is a multiplication by 2^s |
| Directives.DataText | Program.cs:96 | brackets around a DW list are removed and the inside trimmed; other text is kept |
| Directives.ScanWordsCons | Program.cs:97-100 | a decimal word before the rest of a DW list comes first in the words read |
| Directives.ScanPrintedWords | Program.cs:97-100 | decimal words separated by spaces are read back as the same words |
| Directives.ScanWordsShape | Program.cs:97-100 | blank text gives no words; every word read fits in 64 bits, and there are no more words than characters |
| Directives.ScanWordsBound | Program.cs:97-100 | the same bounds, by induction over the literals read |
| Programs.GeneratedInjective | Program.cs:261-262 | distinct indices give distinct generated names |
| Programs.GeneratedCount | Program.cs:262 | there are exactly k generated names below index k |
| Programs.FirstFreeUnique | Program.cs:261-262 | the first free generated name is unique |
| Programs.FreshIndex | Program.cs:262 | the search ends at the first free generated name |
| Programs.AttachLabel | Program.cs:258-267 | a labelled instruction keeps its name and nothing changes; otherwise the first free generated name enters the table with address k and is attached to instruction k only; the tables stay in agreement and labels stay unique |
| Programs.AttachIdempotent | Program.cs:258-267 | a second call on the same instruction changes nothing and returns the same name |
| HeaderLoop.ReadHeader | Program.cs:26-117 | a successful header loop leaves label tables that agree with the instructions, and only operand kinds the parser produces |
| HeaderLoop.LabelLine | Program.cs:30-37 | a label line fails exactly when a label is pending, and otherwise makes it pending and changes nothing else |
| HeaderLoop.PendingAtEnd | Program.cs:113-116 | a label still pending after the last line is fatal |
| HeaderLoop.Setting | Program.cs:44-89 | a setting fails exactly on a bad BITS argument or a MINREG, MINHEAP or MINSTACK argument that is no number; otherwise only the named setting changes, and RUN changes nothing |
| HeaderLoop.DefineData | Program.cs:90-101 | DW fails exactly when its words do not parse; it keeps the instructions and settings, and binds the pending label to the DW count from before |
| HeaderLoop.AddInstruction | Program.cs:102-110 | an instruction fails exactly when its operands do not parse; it appends one instruction with the opcode and the pending label |
| HeaderLoop.ReadLineGrows | Program.cs:28-111 | one line adds at most one instruction and keeps every earlier entry |
| HeaderLoop.ReadLines | Program.cs:28-112 | the loop adds at most one instruction per line and keeps every earlier entry |
| HeaderLoop.AddInstructionKeeps | Program.cs:102-110 | an added instruction keeps the tables in agreement and every operand of a parsed kind |
| HeaderLoop.SettingKeepsPending | Program.cs:44-89 | a setting directive changes only the settings and leaves the pending label pending |
| HeaderLoop.DataTakesPending | Program.cs:90-101 | DW appends exactly its words, gives the pending label the DW count from before, and consumes it |
| HeaderLoop.InstructionTakesPending | Program.cs:102-110 | an instruction is appended with its parsed operands and the pending label, which names its index |
| HeaderLoop.ReadLineKeeps | Program.cs:28-111 | one line keeps the tables in agreement and every operand of a parsed kind |
| HeaderLoop.ReadLinesKeep | Program.cs:28-112 | the whole loop does the same |
| Resolution.CheckFits | Program.cs:120-123 | the checks pass exactly when MINREG, MINHEAP, MINSTACK and the instruction count fit the bound, and then change nothing |
| Resolution.ResolveOperand | Program.cs:133-157 | rewriting one operand only extends the tables and keeps them in agreement |
| Resolution.SetOperand | Program.cs:133 | replacing an operand keeps the tables and whether they agree |
| Resolution.ResolveOperandRewrites | Program.cs:133-157 | each operand is rewritten as the switch says: pseudo-immediate to value, pointer to label or data offset, relative offset to a pointer at i + offset, memory location to an address past the DW words |
| Resolution.ResolveFromKeeps | Program.cs:128-159 | pass one extends the tables, keeps them in agreement, and leaves the operands before its start alone |
| Resolution.ResolveFromRewrites | Program.cs:128-159 | pass one rewrites every operand from its start on |
| Resolution.RewritesStep | Program.cs:131-157 | one operand rewritten, then the rest |
| Resolution.RewrittenAfterOne | Program.cs:131-157 | the rewrite of one operand joined to the rewrites of those after it covers them all |
| Resolution.PassOne | Program.cs:128-159 | after pass one no pseudo-immediate, relative offset or memory location is left, every pointer names an instruction label, and each operand was rewritten as the switch says |
| Resolution.RewrittenForm | Program.cs:133-157 | a rewritten parsed operand needs nothing more from pass one |
| Resolution.UndefinedImmediateFails | Program.cs:146 | an undefined pseudo-immediate fails pass one |
| Resolution.PassOneDefines | Program.cs:146 | every pseudo-immediate in a program that passes pass one names one of the eleven |
| Resolution.ResolveFromNames | Program.cs:152 | pass one adds only generated names to the instruction-label table |
| Resolution.ResolveOperandNames | Program.cs:152 | one rewrite adds only generated names |
| Resolution.UnknownLabelFails | Program.cs:148-150 | a pointer to a name in neither table, and not generated, fails pass one |
| Resolution.AppendHalt | Program.cs:161-164 | an empty list fails; otherwise HLT is appended exactly when the last opcode is not HLT, the old instructions are kept, and the result ends in HLT |
| Resolution.Upgrade | Program.cs:172-175 | a pointer becomes the Label the table holds for it, and fails exactly when the name is missing; other operands stay |
| Resolution.UpgradeFrom | Program.cs:170-176 | every operand from j on is upgraded, and it fails exactly when one upgrade fails |
| Resolution.LabelOne | Program.cs:166-177 | one turn of pass two keeps the number of instructions |
| Resolution.LabelFrom | Program.cs:166-177 | pass two keeps the number of instructions, the settings, the DW words and the data labels |
| Resolution.UpgradedAll | Program.cs:170-176 | each operand is upgraded in place |
| Resolution.LabelOneShape | Program.cs:166-177 | one turn on a ready instruction succeeds, labels it, upgrades its operands and changes no other instruction |
| Resolution.LabelOneAgree | Program.cs:166-177 | one turn keeps the tables in agreement and labels unique |
| Resolution.LabelFromAgree | Program.cs:166-177 | pass two keeps the tables in agreement and labels unique |
| Resolution.LabelFromShape | Program.cs:166-177 | pass two on ready instructions succeeds, labels every one and upgrades its operands |
| Resolution.ShapeAfterOne | Program.cs:166-177 | one labelled turn followed by the rest labels and upgrades every instruction from i on |
| Resolution.UpgradedAllStable | Program.cs:166-177 | labels added by pass two do not change how a ready instruction upgrades |
| Pipeline.CheckCode | Program.cs:188-222 | code generation proceeds exactly when the width is supported and every instruction's name maps to that instruction |
| Pipeline.PassesSpec | Program.cs:118-177 | after the passes, the code is assembled (supported width, final HLT, every instruction labelled with its own index, only emittable operands), opcodes and labels are kept, at most one HLT is added, and every operand is translated as the passes promise |
| Pipeline.Assemble | Program.cs:26-177 | a header failure is the result; a success is assembled and keeps the header's settings and DW words |
| Pipeline.PassesDefine | Program.cs:146 | every pseudo-immediate in a program the passes accept names one of the eleven |
| Pipeline.PassesParts | Program.cs:118-177 | what each pass guarantees about its intermediate state |
| Pipeline.UpgradedEmittable | Program.cs:172-179 | an operand pass one is done with becomes one the emitter handles |
| Pipeline.TranslatedOperand | Program.cs:133-175 | one operand through both passes is translated |
| Pipeline.UndefinedImmediateFatal | Program.cs:146 | an undefined pseudo-immediate is fatal |
| Pipeline.RelativeOutOfRangeFatal | Program.cs:152 | a relative offset that leaves the instruction list is fatal |
| Pipeline.EmptyFatal | Program.cs:161 | a program without instructions is fatal |
| Pipeline.DuplicateLabelFatal | Program.cs:222 | a label written on two instructions is fatal |
| Assembly.Assembler.constructor | Program.cs:11-24 | the variables start as declared: empty tables and lists, W = 8, 8 registers, heap 16, stack 32 |
| Assembly.Assembler.ReadLine | Program.cs:28-111 | one turn of the header loop leaves exactly the state and pending label HeaderLoop.ReadLine gives, or its error |
| Assembly.Assembler.Setting | Program.cs:44-89 | a setting directive changes only the settings, as HeaderLoop.Setting says |
| Assembly.Assembler.DefineData | Program.cs:90-101 | DW in place equals HeaderLoop.DefineData |
| Assembly.Assembler.AppendWords | Program.cs:97-100 | the literal loop appends exactly the words ScanWords reads, or reports its error |
| Assembly.Assembler.AddInstruction | Program.cs:102-110 | an instruction in place equals HeaderLoop.AddInstruction |
| Assembly.Assembler.ReadHeader | Program.cs:26-117 | the header loop in place equals HeaderLoop.ReadLines, and a label pending at the end is the EOF error |
| Assembly.Assembler.CheckFits | Program.cs:120-123 | the checks fail exactly when Resolution.CheckFits fails, with its message |
| Assembly.Assembler.GenerateLabel | Program.cs:258-267 | GenerateLabel in place equals AttachLabel |
| Assembly.Assembler.ResolveOperands | Program.cs:128-159 | pass one in place equals Resolution.ResolveFrom |
| Assembly.Assembler.ResolveAt | Program.cs:133-157 | the switch on one operand in place equals ResolveOperand followed by SetOperand |
| Assembly.Assembler.AppendHalt | Program.cs:161-164 | appending HLT in place equals Resolution.AppendHalt |
| Assembly.Assembler.LabelInstructions | Program.cs:166-177 | pass two in place equals Resolution.LabelFrom |
| Assembly.Assembler.LabelAt | Program.cs:168-176 | one turn of pass two in place equals Resolution.LabelOne |
| Assembly.Assembler.CheckCode | Program.cs:188-222 | code generation's checks fail exactly when Pipeline.CheckCode fails |
| Assembly.ScanStep | Program.cs:97-100 | ScanWords follows TryParseImmediate one literal at a time |
| Assembly.Assemble | Program.cs:26-177 | the assembler run in place gives exactly Pipeline.Assemble's result |
| Semantics.DecodeHalt | Instructions.cs:136 | the appended HLT decodes as the HLT case |
| Semantics.Write | Operands.cs:20-71 | a register write changes only that register, to the low W bits; an SP write changes only SP; a PC write changes only where control goes |
| Semantics.Read | Operands.cs:12-71 | register 0 reads 0, register k its word, SP and the register after the last read SP, PC the index, and an immediate or label has its value's low W bits |
| Semantics.Target | Instructions.cs:91-104 | a label branches to its address; any other operand to its value converted to int32 |
| Semantics.Fetch | Instructions.cs:207-213 | a load succeeds exactly when the native index is inside the memory, and yields a stack value narrowing to that word |
| Semantics.Cell | Instructions.cs:207-248 | an index that succeeds is inside the memory |
| Semantics.Operate | Instructions.cs:251-381 | a stored result is a change that applies to the state |
| Semantics.Store | Instructions.cs:223-238 | a store is a change that applies to the state |
| Semantics.Copy | Instructions.cs:239-248 | a copy is a change that applies to the state |
| Semantics.Push | Instructions.cs:173-182 | a push is a change that applies to the state |
| Semantics.Pop | Instructions.cs:183-204 | a pop is a change that applies to the state |
| Semantics.Call | Instructions.cs:388-398 | a call is a change that applies to the state |
| Semantics.Branch | Instructions.cs:399-480 | a branch is a change that applies to the state |
| Semantics.UnaryResult | Instructions.cs:263-361 | the one-source operations give a stack value (RSH when its input is one) |
| Semantics.BinaryResult | Instructions.cs:251-381 | DIV and MOD fail exactly on a zero divisor and the shifts exactly on a count outside the stack width; results are stack values |
| Semantics.ShiftResult | Instructions.cs:362-381 | BSR, BSS and BSL fail exactly when the native count is negative or at least the stack width |
| Semantics.Shifted | Instructions.cs:344-381 | a shift of a stack value is a stack value |
| Semantics.Compare | Instructions.cs:399-562 | BRC/SETC hold exactly when the sum wraps below the first term, BNC/SETNC exactly when it does not |
| Semantics.SignMask | Instructions.cs:469-480 | the BRP/BRN mask is the pushed 2^(W-1) below 64 bits and 0 at 64 |
| Semantics.SignMaskBit | Instructions.cs:469-480 | below 64 bits the mask's low W bits are the sign bit |
| Semantics.Test | Instructions.cs:449-480 | BEV holds on even values, BOD on odd ones; below 64 bits BRP holds below the sign bit and BRN at or above it; at 64 bits BRP always and BRN never |
| Semantics.CheckParity | Instructions.cs:449-460 | the AND-with-1 test is the parity of the value |
| Semantics.CheckSign | Instructions.cs:469-480 | the AND-with-mask test is the sign bit below 64 bits and constant at 64 |
| Semantics.SetValue | Instructions.cs:483-562 | SETxx stores 2^W - 1 when its condition holds and 0 otherwise |
| Semantics.ShapeOpcodes | Instructions.cs:130-562 | each operand shape belongs to exactly the opcodes whose cases have that shape |
| Semantics.ExecBare | Instructions.cs:133-149 | NOP, HLT and RET touch no register, no cell and no port, and only HLT stops |
| Semantics.ExecSource | Instructions.cs:385-398 | PSH and CAL write one cell, JMP none; only the stack instructions change SP |
| Semantics.ExecIn | Instructions.cs:151-156 | IN reads the port once and writes only its destination |
| Semantics.ExecOut | Instructions.cs:157-162 | OUT writes one port value and touches no register and no cell |
| Semantics.ExecSingle | Instructions.cs:163-172 | MOV, IMM, LOD and the one-source operations write only their destination |
| Semantics.ExecPair | Instructions.cs:449-480 | STR and CPY write one cell; the one-source branches write nothing |
| Semantics.ExecTriple | Instructions.cs:399-448 | LSTR writes one cell; the two-source branches write nothing |
| Semantics.ExecBinary | Instructions.cs:251-381 | LLOD, the two-source operations and SETxx write only their destination |
| Semantics.EmitOne | Instructions.cs:128-130 | an accepted instruction is emitted as the case its opcode string selects, with its operands unchanged and of that case's shape |
| Semantics.ExecShape | Instructions.cs:128-566 | every case keeps to its frame: only STR, LSTR, CPY, PSH and CAL write memory, a register only as the first operand, SP only by the stack instructions or as destination, ports only by IN and OUT, and only HLT stops |
| Semantics.ExecData | Instructions.cs:151-562 | the cases with a register or value destination keep to their frame |
| Semantics.Exec | Instructions.cs:128-566 | the instruction at the index makes a change that applies and keeps to its opcode's frame |
| Semantics.ApplyWellFormed | Instructions.cs:38-63 | applying a change keeps every word W bits wide and the memory size unchanged |
| Semantics.LastStops | Program.cs:161-164 | the last instruction is HLT, so running reaches HLT rather than the end of the method |
| Semantics.NotLast | Program.cs:161-164 | an instruction other than HLT is not the last one |
| Semantics.Outcome | Instructions.cs:128-566 | a failure faults; a jump outside the code faults; only HLT halts; otherwise the index moves to the next instruction or the target |
| Semantics.Step | Instructions.cs:128-566 | a step halts exactly at HLT, and a running machine stays inside the code |
| Semantics.HaltStops | Instructions.cs:136-149 | HLT stops and changes nothing |
| Semantics.StepValid | Program.cs:243-250 | a step keeps the machine valid and the memory size fixed |
| Semantics.Run | Program.cs:243-250 | a run keeps the machine valid and the memory size fixed |
| Alu.TruncSum | Instructions.cs:251-256 | the low W bits of a sum depend only on the low W bits of the terms |
| Alu.TruncDifference | Instructions.cs:257-262 | the low W bits of a difference depend only on the low W bits of the terms |
| Alu.TruncProduct | Instructions.cs:280-285 | the low W bits of a product depend only on the low W bits of the factors |
| Alu.TruncNegation | Instructions.cs:275-279 | negation modulo 2^W depends only on the low W bits |
| Alu.WordResult | Instructions.cs:251-343 | the intended word result is a W-bit word |
| Alu.ShiftRightOfWords | Instructions.cs:344-368 | BSR of a word by c is the quotient by 2^c, and RSH is BSR by 1 |
| Alu.ShiftLeftOfWords | Instructions.cs:356-381 | BSL by c multiplies by 2^c modulo the stack width, and LSH is BSL by 1 |
| Alu.NarrowSignedShiftIsLogical | Instructions.cs:350-375 | at W = 8 and 16, BSS and SRS of a register word are logical shifts, since the 32-bit stack value is never negative |
| Alu.ByteShiftLosesSign | Instructions.cs:350-355 | at W = 8, SRS of 128 stores 64, not the arithmetic 192 |
| Alu.WideSignedShift | Instructions.cs:350-375 | at W = 32 and 64, BSS and SRS divide the signed word by 2^c, rounding down |
| Alu.BinaryStoresWord | Instructions.cs:251-343 | ADD, SUB, MLT, OR, NOR, AND, NAND, XOR and XNOR store the modular or bitwise result of the sources' low W bits, however they were widened |
| Alu.UnaryStoresWord | Instructions.cs:263-361 | INC, DEC, NEG, NOT and LSH store the modular or bitwise result of the source's low W bits |
| Alu.DivisionOfWords | Instructions.cs:286-298 | DIV and MOD of register words are the unsigned quotient and remainder |
| Alu.ByteDivisionSignExtends | Instructions.cs:286-291 | at W = 8, DIV of the immediates 200 and 2 stores 228, because the byte immediate sign-extends |
| Alu.OppositeBranches | Instructions.cs:399-448 | exactly one of BRE/BNE, BRG/BLE, BRL/BGE and BRC/BNC jumps |
| Alu.OppositeTests | Instructions.cs:449-480 | exactly one of BRZ/BNZ, BEV/BOD and BRP/BRN jumps |
| Alu.OppositeSignTests | Instructions.cs:469-480 | exactly one of BRP and BRN jumps |
| Alu.OppositeSets | Instructions.cs:483-562 | SETE/SETNE, SETLT/SETGE, SETGT/SETLE and SETC/SETNC are complements |
| Alu.SetMatchesBranch | Instructions.cs:483-518 | SETE, SETNE, SETLT and SETLE test the conditions of BRE, BNE, BRL and BLE |
| Alu.SetMatchesBranchToo | Instructions.cs:519-562 | SETGT, SETGE, SETC and SETNC test the conditions of BRG, BGE, BRC and BNC |
| Alu.CarryOfWords | Instructions.cs:429-448 | register words never carry at W = 8 and 16, and carry exactly when the sum reaches 2^W at W = 32 and 64 |
| Alu.ByteCarrySignExtends | Instructions.cs:429-438 | at W = 8, BRC of the immediates 200 and 200 jumps, because byte immediates sign-extend |
| Behaviour.RegisterZero | Operands.cs:15-24 | register 0 reads 0 and discards writes |
| Behaviour.RegisterReadWrite | Operands.cs:15-24 | writing register k stores the low W bits there, reads back that word, and leaves other registers, SP, memory and the index alone |
| Behaviour.RegisterAfterLastIsSp | Program.cs:210-212 | the general register after the last one is the SP local |
| Behaviour.LabelReadsAddress | Operands.cs:38-46 | a label reads as the immediate of its address, which is the address itself unless a byte immediate sign-extends |
| Behaviour.ProgramCounterReadWrite | Operands.cs:62-71 | PC reads as the instruction's index, and writing PC jumps to the value converted to int32 |
| Behaviour.ReadBound | Operands.cs:15-65 | every read is a stack value, and a register or SP read is a W-bit word |
| Behaviour.TargetIsValue | Instructions.cs:91-104 | the direct label branch and the dispatch-table branch land on the same instruction number |
| Behaviour.Args | Instructions.cs:128-130 | the operands of the current instruction have the shape its opcode's case matches |
| Behaviour.ExecAt | Instructions.cs:128-130 | the step runs the switch case of the decoded opcode |
| Behaviour.HaltStep | Instructions.cs:136-149 | HLT leaves the method with the registers, memory and SP as they are |
| Behaviour.NopStep | Instructions.cs:133-135 | NOP only moves to the next instruction |
| Behaviour.JumpStep | Instructions.cs:385-387 | JMP goes to its target, or faults when the dispatch table has no entry for it |
| Behaviour.CellOfValue | Instructions.cs:207-213 | a memory access succeeds exactly when the index is below the memory size |
| Behaviour.BelowValue | Instructions.cs:173-182 | SP - 1 is the word below SP, or all ones when SP is 0 |
| Behaviour.AboveValue | Instructions.cs:183-192 | SP + 1 stored back into SP is SP + 1 modulo 2^W |
| Behaviour.PushStep | Instructions.cs:173-182 | PSH decrements SP and stores the source's low W bits at the new SP, or faults outside the memory |
| Behaviour.PopStep | Instructions.cs:183-192 | POP loads the word at SP into the register and increments SP modulo 2^W, or faults outside the memory |
| Behaviour.PopIntoSp | Instructions.cs:183-192 | POP SP leaves SP holding the word that was on top of the stack |
| Behaviour.ReturnLoads | Instructions.cs:193-204 | RET increments SP and jumps to the loaded word converted to int32 |
| Behaviour.ReturnOutside | Instructions.cs:193-204 | RET with SP outside the memory faults |
| Behaviour.CallStep | Instructions.cs:388-398 | CAL decrements SP, stores the next index at the new SP and goes to its target, or faults |
| Behaviour.CallInside | Instructions.cs:388-398 | with SP inside the memory, CAL stores the next index below SP, lowers SP and jumps to the target |
| Behaviour.CallStores | Instructions.cs:388-396 | a successful CAL stores the next index at SP - 1 and leaves SP there |
| Behaviour.CallThenReturn | Instructions.cs:388-398 | RET after CAL, with SP and the return cell as CAL left them, restores SP and resumes after the CAL, while the return index is below 2^(W-1) at W = 8 and 16 |
| Behaviour.CallLeaves | Instructions.cs:388-398 | after CAL the return index is on top of the stack, just below the old SP |
| Behaviour.ReturnBelow | Instructions.cs:193-204 | RET from the cell below a SP value goes to the stored index and restores that SP |
| Behaviour.ReturnTo | Instructions.cs:193-204 | RET with return address a on top goes to instruction a |
| Behaviour.ReturnAddressSignExtends | Instructions.cs:193-204 | at W = 8 and 16 a return index of 2^(W-1) or more comes back negative and RET faults |
| Behaviour.ReturnAddress | Instructions.cs:395-396 | the stored return index loads back unchanged within the bound |
| Behaviour.NegativeAddress | Instructions.cs:68-76 | ldelem.i1/.i2 of a word with its top bit set converts to a negative int32 |
| Behaviour.NegativeReturnFaults | Instructions.cs:193-204 | RET whose address reads back negative faults |
| Behaviour.ModularStep | Instructions.cs:251-343 | an arithmetic or logic instruction stores the word-level result in its register and moves on |
| Behaviour.DivisionStep | Instructions.cs:286-298 | DIV and MOD throw on a zero divisor and otherwise store the low W bits of the quotient or remainder |
| Behaviour.BranchStep | Instructions.cs:399-480 | a taken branch goes to its target or faults, and one not taken goes to the next instruction |
| Behaviour.InStep | Instructions.cs:151-156 | IN stores the low W bits of the next port read and counts the read |
| Behaviour.OutStep | Instructions.cs:157-162 | OUT appends the low W bits of the source to the port writes |
| Behaviour.StoreStep | Instructions.cs:223-229 | STR stores the low W bits at an address inside the memory, and faults otherwise |
| Behaviour.LoadStep | Instructions.cs:207-213 | LOD gets the word at an address inside the memory unchanged, and faults otherwise |
| Behaviour.StoreThenLoad | Instructions.cs:207-229 | a load from the address a store just wrote gives back the stored word |
| Behaviour.CopyStep | Instructions.cs:239-248 | CPY copies one word when both addresses are inside the memory, and faults otherwise |
| Startup.EmitCode | Program.cs:243-250 | the emit loop turns each accepted instruction into its own switch case, one per instruction in order, with HLT emitted as HLT |
| Startup.InitialMemory | Program.cs:227-236 | the memory holds the DW words narrowed to W bits, then HeapMax zero words |
| Startup.MemorySize | Program.cs:227 | the memory size is the DW count plus HeapMax, which is exact when (MINHEAP + MINSTACK) * 2 does not wrap |
| Startup.InitialState | Program.cs:226-241 | registers are zero, memory is laid out as above, SP is the memory size narrowed to W bits, and nothing has run |
| Startup.Boot | Program.cs:217-250 | the method starts exactly when every instruction has a case, every local exists and the memory size fits an int; otherwise it names the failure |
| Startup.AssembledLoads | Program.cs:243-250 | assembled code whose instructions are accepted is code the machine can run |
| Machines.Machine.constructor | Program.cs:226-241 | fresh register and memory arrays hold the given start-up state |
| Machines.Machine.Step | Instructions.cs:128-566 | one step in place leaves exactly the state Semantics.Step gives, and a fault changes nothing |
| Machines.Machine.Perform | Instructions.cs:38-63 | writing the register, the memory cell, SP, the read count and the port trace in place leaves exactly the state Semantics.Apply describes |

## Left out

- Reflection.Emit itself is not modelled: IL bytes, type and method definitions, the Port interface type, assembly output, Lokad.ILPack and the exit code. The model gives the meaning of the generated code, not its encoding.
- The `@ASSEMBLY`, `@TYPE` and `@METHOD` headers are kept as settings. The names only reach Reflection.Emit.
- Runner/Program.cs is not part of this model: the port implementations, console output, `System.Random` and `Task.Delay`. The port is a write trace plus a read oracle `input(name, k)`.
- `ErrorAndQuit` and `Environment.Exit`: every fatal path is an error result carrying the message.
- `char.IsWhiteSpace`, `string.ToUpperInvariant` and `Environment.NewLine` are parameters.
- `RemoveMultiLineComments`: an unbalanced "/*" makes the source slice with a negative length. Here it is an error result.
- HLT calls a three-argument constructor on a two-argument Tuple type, which the runtime rejects. HLT is modelled as returning the registers, the memory and SP.
- The try/fault blocks of BRC, BNC, SETC and SETNC are not valid CIL as emitted. The model gives the intended meaning: carry is the overflow of `add.ovf.un` on the two stack values.
- SETxx at W = 64 multiplies an int64 by an int32, which is not valid CIL. The model multiplies the all-ones word by the comparison result.
- Division by zero, shift counts outside the stack width, out-of-range memory indices and out-of-range branch targets are explicit failures, not host behaviour.
- A general register beyond R + 1 names the JmpLocation local or none; such code is rejected as an invalid program.
- The memory size `DefineWords.Count + HeapMax` adds an int to the uint `HeapMax`, so it is a long, and it is emitted through the `Ldc_I4` overload that takes a long (Program.cs:125, Program.cs:227). That overload writes an eight-byte operand after an opcode that reads four. For a size below 2^31 the extra four bytes are zero and decode as `nop`, so the array gets the size the model gives it. The IL encoding is not modelled, and a size of 2^31 or more is modelled as an overflow failure.
- The string overloads of `IndexOf`, `LastIndexOf` and `StartsWith` (Program.cs:9, 30, 39, 54, 60, 69, 371, 425, 427) compare by the current culture in .NET 5 and later. The model matches them character by character. Under a culture that ignores some characters (zero-width or other ignorable code points), the assembler can find a match where the model finds none, or the other way round.
- Semantics.Run: a run is bounded by a fuel count, so a program that never halts is seen only up to that bound.
- Machines.Machine: the class performs single steps; the loop that keeps stepping is only the function Semantics.Run, since the generated method is straight-line code with branches rather than a loop in the source.
- Programs.Instruction keeps a label's name but not the Label record's address field. The address is the instruction's own index wherever the source creates one.
- The order in which `InstructionLabels.Values` receives IL labels (Program.cs:211) does not affect behaviour and is not modelled.
- Behaviour.DivisionStep, Behaviour.JumpStep and the other per-instruction lemmas are stated on the change an instruction's case produces (Semantics.Outcome). Behaviour.ExecAt and Semantics.Step connect them to the step.
