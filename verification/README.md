# The assembler's text-to-binary pipeline, in Dafny

This project models `AssemblyParser.process` of the simulator's assembler.
`process` takes the ISA descriptor (instruction grammars and macro grammars) and
the lines of an assembly program. It produces the instruction memory (one
32-character string of `0`/`1` per instruction), the data memory, and a list of
errors. It returns `true` only when no error was recorded. The run goes through
seven stages, each a pure function here:

1. **Cleaning** (`Preprocess`): every line is numbered from 1, cut at its first
   `;`, and trimmed. Empty lines are dropped.
2. **Sections** (`Sections`): the file must open with `.text` or `.data`, and each
   marker must occur once. The section a marker opens runs to the other marker
   or to the end of the file.
3. **Data memory** (`DataSegment`): each data line `name: type value` gives its
   variable the next free index and appends its words. `.word` is read with
   `Integer.decode`, `.int` with `Integer.parseInt`, `.char` stores the first
   character's code, and `.string` stores one word per character.
4. **Labels** (`Labels`): a leading `name:` on a text line records label `name`
   at that source line. The rest of the line, trimmed, is the instruction.
5. **Macro expansion** (`Macros`): a line whose first word names a
   pseudo-instruction becomes that macro's result lines. Each `%n` is filled in
   with capture group `n`. The expanded lines are then numbered 0, 1, 2, …
   `Substitution` shows that, on well-formed result lines, the code's
   find-and-replace loop is a single left-to-right substitution.
6. **Label resolution** (`Labels`): a label maps to the instruction index of the
   first expanded line at or after its source line.
7. **Encoding** (`Encoder`, `Binary`):
   - Each operand is read as a number, a data variable or a label. A branch
     operand is relative to the next instruction.
   - Each operand is range-checked, masked to its field's width, shifted to the
     field's index, and added into a Java `int`, as are the opcodes.
   - The word is printed as 32 binary digits.

Supporting modules:
- `JavaText` models the pieces of `java.lang.String` and `java.util.regex` the
  code relies on.
- `JavaInt` models Java `int`/`long` arithmetic: wrap-around, truncating `/` and
  `%`, `&`, `<<`, and the source's own `pow`.
- `Literals` models `Integer.decode` and `Integer.parseInt`.
- `Types` holds the records and the outcome of a run.

The outcome of a run is one of three:
- `Fatal`: `report` threw, or an uncaught Java exception ended the run.
- `Stopped`: an invalid data variable name made `process` return `false` at once.
- `Done`: the run finished, with its errors, instruction words and data words.

The regular-expression engine behind the grammars' patterns is a parameter
`Matcher`. It maps a pattern and a text to the capture groups of the first match,
or to nothing. The two fixed patterns of the code are modelled exactly:
- the label and variable-name pattern `([a-zA-Z0-9]+):`;
- the placeholder pattern `[^%]*%(\d+).*`.

Where the code's behaviour is easy to misread:
- A second `.text` or `.data` marker is fatal, because `report` throws. It is
  not a recorded error.
- A data line with the wrong number of tokens records an error and is still
  read. A missing token, a malformed number and an unparseable literal end the
  run with an uncaught exception.
- `.word` accepts everything `Integer.decode` does: octal with a leading `0`,
  and `#` for hexadecimal.
- `.string "ab"` stores the quote characters too, so it takes four words.
- Markers are recognised by prefix: `.textual` counts as `.text`.
- The variable-name pattern of a data line is found anywhere in its first
  token, not only at its start (`DataSegment` reads it with `find`).
- An unknown mnemonic emits no word. A pattern that does not match emits the
  word 0.

## Model

| member | source | states |
|---|---|---|
| Preprocess.Clean | src/main/java/assimulator/assemble/parser/AssemblyParser.java:96-106 | the kept text holds no `;` and has no blank character at either end |
| Preprocess.KeepNonEmpty | src/main/java/assimulator/assemble/parser/AssemblyParser.java:108-109 | a line survives exactly when its text is non-empty, and increasing line numbers stay increasing |
| Preprocess.PreprocessSpec | src/main/java/assimulator/assemble/parser/AssemblyParser.java:85-109 | every kept line is a 1-based input line with its comment cut, trimmed and non-empty; every input line whose cleaned text is non-empty is kept; source order is preserved |
| JavaText.Trim | src/main/java/assimulator/assemble/parser/AssemblyParser.java:105 | `trim` gives the empty text exactly for an all-blank line, otherwise the slice between the leading and trailing blank runs, with no blank at either end |
| JavaText.StripComment | src/main/java/assimulator/assemble/parser/AssemblyParser.java:99-101 | the result is the part of the line before its first `;`, or the whole line if it has no `;` |
| JavaText.SplitShape | src/main/java/assimulator/assemble/parser/AssemblyParser.java:175 | `split("\\s+")` pieces hold no whitespace; all but the first are non-empty; the first is the text before the first whitespace; there are none only for a non-empty all-whitespace text |
| JavaText.SplitJoin | src/main/java/assimulator/assemble/parser/AssemblyParser.java:175 | splitting words joined by single spaces gives back those words |
| JavaText.FindLabelFrom | src/main/java/assimulator/assemble/parser/AssemblyParser.java:181-183 | `find` returns the leftmost position where `([a-zA-Z0-9]+):` matches, with group 1 the whole alphanumeric run before the colon; no match means no position matches |
| JavaText.LeadingLabelIsFindAtZero | src/main/java/assimulator/assemble/parser/AssemblyParser.java:230-236 | the label anchored at the line start exists exactly when `find` matches at position 0, and then the names agree |
| Sections.FindMarkers | src/main/java/assimulator/assemble/parser/AssemblyParser.java:118-140 | the scan succeeds exactly when no marker occurs twice and then locates each marker or reports it absent; otherwise it aborts at the first line that repeats a marker |
| Sections.SplitRepeated | src/main/java/assimulator/assemble/parser/AssemblyParser.java:121-140 | a repeated marker aborts the run, naming the first line that repeats one |
| Sections.SplitMissing | src/main/java/assimulator/assemble/parser/AssemblyParser.java:142-147 | with no `.data` line the run aborts for that; with `.data` but no `.text` it aborts for the missing text section |
| Sections.SplitPlaced | src/main/java/assimulator/assemble/parser/AssemblyParser.java:149-163 | the marker on the first line opens its section, which runs up to the other marker; the other section runs to the end; a first line that is neither marker, or an empty text section, aborts |
| Sections.SplitIncreasing | src/main/java/assimulator/assemble/parser/AssemblyParser.java:149-163 | both sections keep the strictly increasing source line numbers of the cleaned lines |
| Sections.SplitExample | src/main/java/assimulator/assemble/parser/AssemblyParser.java:154-156 | a program opening with `.data` splits into the lines between the markers (data) and after `.text` (text) |
| AssemblyParser.EmptyInputAborts | src/main/java/assimulator/assemble/parser/AssemblyParser.java:111-114 | an empty program aborts with "No instructions provided" |
| DataSegment.WalkOutcome | src/main/java/assimulator/assemble/parser/AssemblyParser.java:173-220 | the data loop gets through every line exactly when each line is readable; otherwise it stops at the first line that is not, crashing with that line's exception or returning false for an invalid name |
| DataSegment.HaltAtBadName | src/main/java/assimulator/assemble/parser/AssemblyParser.java:216-218 | returning false means the loop stopped at a line whose first token holds no variable name, and that line's "invalid var name" error is the last one recorded |
| DataSegment.StepEffect | src/main/java/assimulator/assemble/parser/AssemblyParser.java:176-215 | a readable line adds its complaints; a definition points its variable at the next free index, appends its words and advances the index by their number |
| DataSegment.WalkLayout | src/main/java/assimulator/assemble/parser/AssemblyParser.java:166-220 | a full pass appends the lines' layout to memory, advances the next free index by its length, adds the lines' addresses to the variable map, and appends the lines' errors |
| DataSegment.SectionLayout | src/main/java/assimulator/assemble/parser/AssemblyParser.java:166-220 | after the whole section the next free index equals the number of data words, and memory, variable map and errors are the layout, addresses and complaints of the lines |
| DataSegment.AddressContent | src/main/java/assimulator/assemble/parser/AssemblyParser.java:187-211 | a variable's address holds the words of the last line that defines it |
| DataSegment.AddressIsOffset | src/main/java/assimulator/assemble/parser/AssemblyParser.java:187-209 | a variable's address is the number of words laid out by the lines before its last definition |
| DataSegment.AddressesInOrder | src/main/java/assimulator/assemble/parser/AssemblyParser.java:187-209 | variables are allocated in declaration order: an earlier last definition sits below a later one, with all its words in between |
| DataSegment.NamedIsAddressed | src/main/java/assimulator/assemble/parser/AssemblyParser.java:187-208 | every variable some line defines gets an address |
| DataSegment.UnnamedIsUnaddressed | src/main/java/assimulator/assemble/parser/AssemblyParser.java:187-208 | a variable no line defines gets no address |
| DataSegment.DeclarationTokens | src/main/java/assimulator/assemble/parser/AssemblyParser.java:175-183 | `name: type value` with single spaces splits into its three tokens, and the name pattern finds `name` in the first |
| DataSegment.NumberDeclaration | src/main/java/assimulator/assemble/parser/AssemblyParser.java:185-190 | `name: .word v` and `name: .int v`, with `v` the decimal text of an `int`, define `name` as the single word `v` |
| DataSegment.TextDeclaration | src/main/java/assimulator/assemble/parser/AssemblyParser.java:191-205 | `name: .string s` defines `name` as the character codes of `s`, one word each; `name: .char s` as the code of its first character |
| DataSegment.UnknownTypeIsRecorded | src/main/java/assimulator/assemble/parser/AssemblyParser.java:176-178 | an unknown type records one error and allocates nothing; a token count other than three adds an error exactly when it occurs |
| Literals.Decode | src/main/java/assimulator/assemble/parser/AssemblyParser.java:189 | `Integer.decode` yields only values in `int` range and rejects the empty text |
| Literals.ParseInt | src/main/java/assimulator/assemble/parser/AssemblyParser.java:210 | `Integer.parseInt` yields only values in `int` range |
| Literals.ParseShowInt | src/main/java/assimulator/assemble/parser/AssemblyParser.java:210 | `parseInt` reads back the decimal text of every `int` |
| Literals.DecodeShowInt | src/main/java/assimulator/assemble/parser/AssemblyParser.java:189 | `decode` reads back the decimal text of every `int` |
| Literals.DecodeRejectsNames | src/main/java/assimulator/assemble/parser/AssemblyParser.java:327-332 | an operand that starts with a letter never decodes, so it is looked up as a name |
| Literals.DecodeHex | src/main/java/assimulator/assemble/parser/AssemblyParser.java:329 | `0x` and `-0x` literals denote their hexadecimal value with the sign |
| Literals.DecodeOctalExample | src/main/java/assimulator/assemble/parser/AssemblyParser.java:189 | a leading `0` means octal (`010` is 8, `08` is rejected), and `0x` alone or a doubled sign is rejected |
| Labels.StripLabelSpec | src/main/java/assimulator/assemble/parser/AssemblyParser.java:230-241 | a cut label is an alphanumeric name at the start followed by `:`, and the line keeps the trimmed rest; with no label no prefix of the line is `name:`; the source line number is kept |
| Labels.StripOffsetCounterexample | src/main/java/assimulator/assemble/parser/AssemblyParser.java:234-237 | on `_loop: nop` the code as written records label `loop` and leaves `: nop` as the instruction; the corrected cut sees no label |
| Labels.AsWrittenAgreesAtStart | src/main/java/assimulator/assemble/parser/AssemblyParser.java:234-237 | where the pattern matches at the line start, or nowhere, the code as written and the corrected cut agree |
| Labels.LabelMapSpec | src/main/java/assimulator/assemble/parser/AssemblyParser.java:223-236 | a name is a label exactly when some text line defines it, and it maps to the source line of the last such line |
| Labels.UnlabelledSpec | src/main/java/assimulator/assemble/parser/AssemblyParser.java:226-248 | the lines kept are exactly the label-stripped lines whose text is not empty |
| Labels.UnlabelledSorted | src/main/java/assimulator/assemble/parser/AssemblyParser.java:226-248 | cutting labels and dropping empty lines keeps the lines in source order |
| Labels.UnlabelledIncreasing | src/main/java/assimulator/assemble/parser/AssemblyParser.java:226-248 | cutting labels and dropping empty lines keeps source line numbers strictly increasing |
| Labels.FirstAtOrAfter | src/main/java/assimulator/assemble/parser/AssemblyParser.java:293-298 | the index found is of a line at or after the given source line, with every earlier line before it; none means every line is before it |
| Labels.ResolveSpec | src/main/java/assimulator/assemble/parser/AssemblyParser.java:289-300 | a resolved label holds the instruction index of the first expanded line at or after its source line; a label is left out exactly when every expanded line comes before it |
| Macros.PlaceholderSpec | src/main/java/assimulator/assemble/parser/AssemblyParser.java:263-268 | the placeholder pattern matches exactly when some `%` is followed by a digit; the match is the first such `%`, and group 1 is a non-empty run of digits |
| Macros.ReplaceLowersPct | src/main/java/assimulator/assemble/parser/AssemblyParser.java:269 | replacing `%n` by `%`-free text never adds a `%` and removes one whenever it changes anything |
| Macros.RoundLowersPct | src/main/java/assimulator/assemble/parser/AssemblyParser.java:267-269 | with `%`-free captures, a round that replaces something starts from a line with a `%` and, if it changes the line, leaves fewer |
| Macros.EnoughSteps | src/main/java/assimulator/assemble/parser/AssemblyParser.java:267-270 | with `%`-free captures the filling loop never needs more rounds than the line has `%` characters |
| Macros.FilledIsFinal | src/main/java/assimulator/assemble/parser/AssemblyParser.java:267-270 | a filled result line has no placeholder left |
| Macros.PlainResult | src/main/java/assimulator/assemble/parser/AssemblyParser.java:265-273 | a result line without placeholders is emitted unchanged |
| Macros.ZeroPlaceholder | src/main/java/assimulator/assemble/parser/AssemblyParser.java:268-269 | `%0` asks for capture index -1 and throws |
| Macros.LeadingZeroPlaceholder | src/main/java/assimulator/assemble/parser/AssemblyParser.java:267-270 | `%01` reads as number 1, but `%1` does not occur in it, so the loop never ends |
| Macros.PrefixCollision | src/main/java/assimulator/assemble/parser/AssemblyParser.java:269 | filling in `%1` also rewrites the front of `%10`: `%1 %10` with capture `a` becomes `a a0` |
| Macros.FillAll | src/main/java/assimulator/assemble/parser/AssemblyParser.java:264-275 | every result line is filled exactly when the loop ends normally on each one; the texts are then one per result line, each where its loop ends; otherwise the run ends with the exception, or the non-termination, of the first line whose loop does not end normally |
| Macros.RoundBudgetSuffices | src/main/java/assimulator/assemble/parser/AssemblyParser.java:263-270 | with `%`-free captures the loop on one result line never runs past the model's round budget: it fills the line, throws, or spins without change |
| Macros.FillAllInBudget | src/main/java/assimulator/assemble/parser/AssemblyParser.java:264-275 | with `%`-free captures no result line runs out of rounds, so a non-terminating expansion is always a loop that spins without change |
| Macros.PctAfterPlaceholder | src/main/java/assimulator/assemble/parser/AssemblyParser.java:267-270 | a placeholder directly followed by `%` fuses with the next once filled: `%2%1%2` with captures `a`, `5` becomes `5%15`, and the next round throws asking for capture 15 |
| Substitution.RoundIsFill | src/main/java/assimulator/assemble/parser/AssemblyParser.java:267-269 | one round of the loop on a partly substituted line fills in, everywhere, the number of the first placeholder still open, and changes the line |
| Substitution.ReplaceFill | src/main/java/assimulator/assemble/parser/AssemblyParser.java:269 | `replace` of `%n` by capture `n` on a partly substituted line is the same as also substituting number `n` |
| Substitution.SubstituteIsSubstOnce | src/main/java/assimulator/assemble/parser/AssemblyParser.java:263-270 | for a result line that is a plain template (see Left out) and `%`-free captures, the loop ends with each `%n` replaced by capture `n` in one left-to-right pass |
| Substitution.FillAllSpec | src/main/java/assimulator/assemble/parser/AssemblyParser.java:264-275 | for such result lines the filled texts are their one-pass substitutions, one per result line |
| Substitution.ExpandedText | src/main/java/assimulator/assemble/parser/AssemblyParser.java:252-275 | a macro line whose pattern matches, with such result lines, expands without error to one line per result line, each with the macro line's number and the substituted result text |
| Macros.ExpandLineSpec | src/main/java/assimulator/assemble/parser/AssemblyParser.java:252-281 | a non-macro line passes unchanged; a macro line whose pattern fails records one error and emits nothing; one whose pattern matches emits, with no error, one line per result line, each with the macro line's number and the text the loop fills in for that result line |
| Macros.ExpandAllOrder | src/main/java/assimulator/assemble/parser/AssemblyParser.java:251-282 | every expanded line carries the source number of an input line, and expansion keeps source order |
| Macros.Number | src/main/java/assimulator/assemble/parser/AssemblyParser.java:284-287 | the instruction indices are dense: line `i` gets index `i`, and every line keeps its source number and text |
| AssemblyParser.ExpansionAt | src/main/java/assimulator/assemble/parser/AssemblyParser.java:251-287 | on strictly increasing lines, what one line expands to sits together in the numbered expansion, right after what the earlier lines expand to, and its first line is the first numbered line at or after its source line |
| Encoder.OperandValueSpec | src/main/java/assimulator/assemble/parser/AssemblyParser.java:326-347 | an operand is a number if it decodes, else a data variable, else a label, branch operands relative to the next instruction; an error is recorded, and the value is 0, exactly when it is none of these |
| Encoder.BranchLandsOnLabel | src/main/java/assimulator/assemble/parser/AssemblyParser.java:338-340 | the instruction after a branch, moved by the operand's value, is the label's instruction |
| Encoder.SmallPow | src/main/java/assimulator/assemble/parser/AssemblyParser.java:351-368 | for widths up to 62, `pow(2, n) - 1` and `-pow(2, n)` are exact in `long` |
| JavaInt.PowOfPow2 | src/main/java/assimulator/assemble/parser/AssemblyParser.java:414-420 | `pow(2^k, b)` equals 2^(k·abs(b)) while that stays below 2^63, for negative `b` too |
| JavaInt.PowTwo | src/main/java/assimulator/assemble/parser/AssemblyParser.java:414-420 | `pow(2, b)` and `pow(2, -b)` both equal 2^abs(b), so the mask of a signed field has as many ones as its width |
| Encoder.RangeErrorSpec | src/main/java/assimulator/assemble/parser/AssemblyParser.java:349-374 | the range check accepts exactly 0 to 2^w-1 for an unsigned width `w`, and -2^(w-1) to 2^(w-1)-1 for a signed width `-w`; each error names the bound crossed |
| Encoder.MaskOnes | src/main/java/assimulator/assemble/parser/AssemblyParser.java:376 | the field mask is abs(numBits) one bits |
| Encoder.FieldHoldsLowBits | src/main/java/assimulator/assemble/parser/AssemblyParser.java:376-377 | the field's bits in the word are the low abs(numBits) bits of the value, whatever the value |
| Encoder.FieldReadBack | src/main/java/assimulator/assemble/parser/AssemblyParser.java:349-377 | a value that passes the range check reads back from the field's bits: as itself when unsigned, as two's complement when signed |
| Encoder.NumericField | src/main/java/assimulator/assemble/parser/AssemblyParser.java:326-378 | a numeric operand is packed into its field whether or not it fits; being out of range only adds the range error |
| Encoder.PackSpec | src/main/java/assimulator/assemble/parser/AssemblyParser.java:322-379 | the field loop throws exactly when there are fewer groups than fields; otherwise its word is the plain sum of the fields modulo 2^32, it is error-free exactly when each field is, and each error comes from a field |
| Encoder.EncodeFieldsSpec | src/main/java/assimulator/assemble/parser/AssemblyParser.java:322-379 | the fields fail exactly when the pattern has too few groups; they are error-free exactly when every operand is known and in range; each error is about the line |
| Encoder.EncodeFieldsSum | src/main/java/assimulator/assemble/parser/AssemblyParser.java:376-378 | the packed fields are the plain sum of each operand's masked and shifted value, modulo 2^32 |
| Encoder.OpBitsSum | src/main/java/assimulator/assemble/parser/AssemblyParser.java:382-383 | the opcode bits are the plain sum of `opCode << index`, modulo 2^32 |
| Encoder.EncodedWord | src/main/java/assimulator/assemble/parser/AssemblyParser.java:319-388 | a matched line's word is the sum of its field contributions and its `opCode << index` terms, modulo 2^32 |
| Encoder.EncodeLineSpec | src/main/java/assimulator/assemble/parser/AssemblyParser.java:303-388 | an unknown mnemonic emits no word and one error naming it; a known one emits exactly one word, which is 0 with one error when the pattern does not match |
| Encoder.EncodeAllCount | src/main/java/assimulator/assemble/parser/AssemblyParser.java:303-389 | the instruction memory has exactly one word per expanded line with a known mnemonic |
| Encoder.SingleFieldWord | src/main/java/assimulator/assemble/parser/AssemblyParser.java:319-388 | a one-field instruction with an in-range numeric operand encodes without error to a word whose field reads back the number |
| JavaInt.AddWord | src/main/java/assimulator/assemble/parser/AssemblyParser.java:378 | Java `int` addition of two words is their sum modulo 2^32 |
| JavaInt.AndLowMask | src/main/java/assimulator/assemble/parser/AssemblyParser.java:376 | AND with 2^w-1 keeps the value modulo 2^w |
| JavaInt.ShiftReadBack | src/main/java/assimulator/assemble/parser/AssemblyParser.java:377 | a value below 2^w shifted left by `i` reads back from bits i to i+w-1 when the field fits the word |
| JavaInt.LowBitsReadBack | src/main/java/assimulator/assemble/parser/AssemblyParser.java:376 | an in-range value reads back from its low `w` bits, unsigned or two's complement |
| Binary.BinaryDigitsValue | src/main/java/assimulator/assemble/parser/AssemblyParser.java:388 | the digits `Integer.toBinaryString` prints spell the number |
| Binary.RenderShape | src/main/java/assimulator/assemble/parser/AssemblyParser.java:388 | the rendering is the binary digits behind enough zeros to make 32 characters |
| Binary.RenderSpec | src/main/java/assimulator/assemble/parser/AssemblyParser.java:388 | every rendered word is 32 characters of `0`/`1` spelling the word's unsigned value, and read as two's complement it gives back the `int` |
| Binary.RenderInjective | src/main/java/assimulator/assemble/parser/AssemblyParser.java:388 | different `int`s render differently |
| Binary.RenderExamples | src/main/java/assimulator/assemble/parser/AssemblyParser.java:388 | 0 renders as 32 zeros and -1 as 32 ones |
| AssemblyParser.TextOrdered | src/main/java/assimulator/assemble/parser/AssemblyParser.java:85-163 | the text section's source line numbers strictly increase, so it is sorted and no two of its lines share a number |
| AssemblyParser.LabelResolvesToFirstExpansion | src/main/java/assimulator/assemble/parser/AssemblyParser.java:222-300 | when the last line defining a label keeps an instruction, that instruction expands without a crash; if it yields any lines, the label resolves to the instruction index of the first of them, and the lines from there are its expansion, with its source line number |
| AssemblyParser.DataMemorySpec | src/main/java/assimulator/assemble/parser/AssemblyParser.java:408-411 | the data memory is shown one 32-digit binary string per word, each reading back the word |
| AssemblyParser.Succeeded | src/main/java/assimulator/assemble/parser/AssemblyParser.java:391 | the run reports true exactly when it completed with no error; a fatal run returns nothing |
| AssemblyParser.DoneSpec | src/main/java/assimulator/assemble/parser/AssemblyParser.java:76-392 | in a completed run the data memory is the layout of the data lines, the errors start with the data errors, there is one word per line with a known mnemonic, and each is 32 binary digits spelling the encoded word |
| AssemblyParser.StoppedSpec | src/main/java/assimulator/assemble/parser/AssemblyParser.java:216-218 | a run that stops early returns false, and its last error is the invalid name of the data line where it stopped |

## Left out

- `src/main/java/assembler/Assembler.java`, the legacy front end. It never
  fills its line list, never initialises its error list, and its text step is
  empty, so there is no pipeline to model.
- The `java.util.regex` engine behind the grammars' patterns. It is the
  parameter `Matcher`. A capture group that took part in no match (`null` in
  Java) is not represented.
- Strings are sequences of Dafny `char`s. Java's UTF-16 code units, surrogate
  pairs and `Character.digit` on non-ASCII digits are not modelled.
- The index counters (`currentMemoryIndex`, the `instructionLine` numbers) and
  the data addresses are unbounded integers. Their `int` overflow, past 2^31
  words or lines, is not modelled. Branch distances do wrap as `int`.
- The text of error messages. Each error is a line number and a kind with its
  data.
- `setInstructionGrammars` and `setMacroGrammars`, which only collect the
  grammars into maps, and the getters, apart from the rendering
  `getDataMemory` applies (`AssemblyParser.DataMemory`). `Isa` holds the maps
  directly.
- Macros.Substitute: the source's `while` loop has no bound. The model runs it
  for at most as many rounds as the result line has characters. A run out of
  rounds, like a round that changes nothing (where the source spins forever),
  ends the run as a non-terminating expansion (`Diverges`). `Macros.EnoughSteps`
  shows that the bound is never reached when no capture holds a `%`. With a
  `%` in a capture, the model may stop where the source would go on and
  finish.
- Encoder.RangeErrorSpec: stated for widths from -63 to 62 only. Beyond that,
  `pow` overflows `long` and the bounds it computes are garbage. The function
  `RangeError` itself models every width.
- Encoder.FieldReadBack: stated for fields that fit the word (index ≥ 0 and
  index + width ≤ 32). Wider or misplaced fields lose bits through the `int`
  cast and the shift count modulo 32, which the functions model but the lemma
  does not describe.
- Labels.StripLabel: the pipeline cuts a label only at the start of a text
  line. The code's `find()` (AssemblyParser.java:234-237) also accepts a match
  further in and then cuts the wrong characters; that behaviour is the
  separate `Labels.StripLabelAsWritten` (see Findings).
- Substitution.SubstituteIsSubstOnce: stated only for plain templates: result
  lines whose every `%` opens a placeholder with no leading zero that names a
  capture, where no placeholder is directly followed by `%`, and no
  placeholder's digits are a prefix of another's; the captures must hold no
  `%`. Outside that the loop is not a one-pass substitution;
  `Macros.PrefixCollision`, `Macros.LeadingZeroPlaceholder`,
  `Macros.ZeroPlaceholder` and `Macros.PctAfterPlaceholder` show how it
  differs.
- AssemblyParser.LabelResolvesToFirstExpansion: covers a label on a line that
  keeps an instruction. A label alone on its line resolves to the next expanded
  line, which `Labels.ResolveSpec` states for every label.
- Duplicate label names and overlapping bit fields are not detected, as in the
  code. A later label definition wins (`Labels.LabelMapSpec`).

## Findings

| source | as written | input that shows it | evidently intended | confidence | as-written member | corrected member |
|---|---|---|---|---|---|---|
| src/main/java/assimulator/assemble/parser/AssemblyParser.java:234-237 | the label is taken from the first match of `([a-zA-Z0-9]+):.*` anywhere in the line (`find`), but the text kept is cut `length(name) + 1` characters from the start of the line, not from the end of the match | `_loop: nop` records label `loop` and leaves `: nop` as the instruction | a label only at the start of the line, with the rest of the line after its colon as the instruction | not executed | Labels.StripOffsetCounterexample | Labels.StripLabelSpec |

The rest of the pipeline uses the corrected cut `Labels.StripLabel`. The code as
written is `Labels.StripLabelAsWritten`. `Labels.AsWrittenAgreesAtStart` shows
that the two agree whenever the pattern matches at the line start or nowhere.
