# LC-3 style assembler, linker and simulator — a Dafny model

This project models the core of a three-stage toolchain for a 16-bit machine with eight
registers, a condition-code register and 65536 words of memory in 128 pages of 512 words.

- **Assembler.**
  - `Validate` checks each source line: fixed columns, label syntax, the operation's presence in
    the machine-op or pseudo-op table, and the shape of every operand.
  - `Pass1` fills the symbol table (labels, `.EQU` values, `.EXT` names) and the literal table.
  - `Pass2` turns each line into object-file records:
    - the header `H`;
    - the text records `T` (address and word, with an `X9`/`X16` suffix when the program is
      relocatable and the word refers to a symbol);
    - the entry records `N`;
    - the end record `E`.
  - `String_Parser` supplies the conversions between operand text, numbers and binary or hex strings.
  - `Machine_Op_Table` and `Pseudo_Op_Table` are the two instruction tables.
- **Linker.**
  - `PassOne` places each segment at the load address after the previous one.
  - `PassOne` also collects every segment's `N` records into one external symbol table, shifted
    by the segment's load address.
  - `PassTwo` writes one header, every relocated `T` record, and the end record of segment `Main`.
  - When it writes a `T` record, `PassTwo` patches the low nine bits (`X9`) or the whole word (`X16`).
- **Loader and simulator.**
  - `Loader` validates and loads an object file into `Machine` memory.
  - `Simulator` decodes words and runs them.
  - The simulator stops at `HALT` or when its loop count runs out.

The modules follow the source files:
- Pure conversions are functions with lemmas.
- Objects whose fields the source updates are classes:
  - `MachineOpTable`, `PseudoOpTable`, `Validate`, `Pass1`, `Pass2`, `Machine`, `Loader`,
    `PassOne` and `PassTwo`.
  - Their methods carry `modifies` clauses, and their loops carry invariants.
  - Each method is proved against a specification function.
- Java's `short`, `int`, `Integer.parseInt`, `toHexString`, `trim` and `split` are written out
  in `JavaText` and `JavaBits`, including 32-bit overflow of `parseInt` and 16-bit wrap-around of `short`.
- `validateInstruction` splits with the string literal `"\s+"`. Java 15 and later read the `\s` escape in a string literal as one space, so the pattern is ` +`. The model splits on runs of spaces only; tabs stay inside the words.
- `Wrappers` holds `Option` and `Result`.
- Exceptions and calls to `System.exit` become error values.

## Model

| member | source | states |
|---|---|---|
| SimLoader.HexClass | app/src/main/java/lab3_integrated/simulator/loader/Loader.java:121-127 | the regular-expression class [0-9A-Fa-f] is exactly the digits parseInt accepts in radix 16 |
| SimLoader.Hex4 | app/src/main/java/lab3_integrated/simulator/loader/Loader.java:135-143 | a four-digit hex field parses to a value in [0, 0xFFFF] |
| SimLoader.HexWordField | app/src/main/java/lab3_integrated/simulator/loader/Loader.java:135-143 | the upper-case hex word of an address is a valid field that reads back as the address |
| SimLoader.LowerHexField | app/src/main/java/lab3_integrated/simulator/loader/Loader.java:135-143 | so is the lower-case word the linker writes |
| SimLoader.TextRecordRoundTrip | app/src/main/java/lab3_integrated/simulator/loader/Loader.java:121-143 | a text record as the linker writes it passes textLineValidation and loads back as its word at its address; a record that keeps an X9 or X16 suffix never passes |
| SimLoader.ParseShort | app/src/main/java/lab3_integrated/simulator/loader/Loader.java:165-168 | parseShort succeeds exactly when parseInt does and the value fits a short, and then gives that value |
| SimLoader.EndAddressAsWritten | app/src/main/java/lab3_integrated/simulator/loader/Loader.java:165-168 | the source's parseShort read of the start address succeeds exactly below 0x8000 |
| SimLoader.EndAddressAsWrittenRejectsUpperHalf | app/src/main/java/lab3_integrated/simulator/loader/Loader.java:165-168 | every end record for an address in [0x8000, 0xFFFF] passes endLineValidation and is then rejected by parseShort |
| SimLoader.EndAddressRoundTrip | app/src/main/java/lab3_integrated/simulator/loader/Loader.java:152-168 | every memory address can be a start address: its end record passes validation and reads back as it |
| SimLoader.AcceptedLetters | app/src/main/java/lab3_integrated/simulator/loader/Loader.java:23-82 | an accepted header is the first record and valid, an accepted end record the last and valid |
| SimLoader.LoadableIffAccepted | app/src/main/java/lab3_integrated/simulator/loader/Loader.java:23-82 | every record passes the switch, with a header first and an end record last, exactly when the file is loadable (valid header, valid text records, valid end record) |
| SimLoader.LoadTexts | app/src/main/java/lab3_integrated/simulator/loader/Loader.java:135-143 | storing the text records keeps a memory image of 2^16 cells |
| SimLoader.LoadTextsStep | app/src/main/java/lab3_integrated/simulator/loader/Loader.java:135-143 | one more line stores its word when it is a text record |
| SimLoader.LastWriter | app/src/main/java/lab3_integrated/simulator/loader/Loader.java:23-82 | the last text record naming an address, and no later one names it |
| SimLoader.LoadTextsLastWins | app/src/main/java/lab3_integrated/simulator/loader/Loader.java:23-82 | each cell holds the word of the last text record for it, or its old value when none names it |
| SimLoader.Loader.constructor | app/src/main/java/lab3_integrated/simulator/loader/Loader.java:23-82 | the initial load address and the upper bound start at zero |
| SimLoader.Loader.LoadHeaderRecordContent | app/src/main/java/lab3_integrated/simulator/loader/Loader.java:105-112 | the machine takes the header's name; the load address and upper bound are the header's start and start plus length |
| SimLoader.Loader.LoadTextRecordContent | app/src/main/java/lab3_integrated/simulator/loader/Loader.java:135-143 | the cell at the record's address becomes (short) data and no other cell changes |
| SimLoader.Loader.LoadEndRecordContent | app/src/main/java/lab3_integrated/simulator/loader/Loader.java:165-168 | PC becomes the start address of the end record, read as the full 16-bit value (the corrected read of the Findings row) |
| SimLoader.Loader.LoadRecord | app/src/main/java/lab3_integrated/simulator/loader/Loader.java:23-82 | one turn of the switch accepts exactly what the record rules accept, and applies that record |
| SimLoader.Loader.ParseInputFile | app/src/main/java/lab3_integrated/simulator/loader/Loader.java:23-82 | succeeds exactly on loadable files; then the name, load address, upper bound and PC come from the header and end records and memory holds the text records in order |
| LinkerPassOne.NRecordRoundTrip | app/src/main/java/lab3_integrated/linker/PassOne.java:68-91 | an N record `N<name>=<hex offset>` reads back as the name and the offset plus pla |
| LinkerPassOne.NRecords | app/src/main/java/lab3_integrated/linker/PassOne.java:68-91 | the loop over N records stops at a line within the segment's input |
| LinkerPassOne.Definitions | app/src/main/java/lab3_integrated/linker/PassOne.java:68-91 | one (name, value) pair per N record |
| LinkerPassOne.OverlayCons | app/src/main/java/lab3_integrated/linker/PassOne.java:68-91 | putting a pair first and then the rest is putting the rest over the table with that pair |
| LinkerPassOne.OverlayUntouched | app/src/main/java/lab3_integrated/linker/PassOne.java:68-91 | a name no pair carries keeps its starting entry |
| LinkerPassOne.OverlayLast | app/src/main/java/lab3_integrated/linker/PassOne.java:68-91 | the last pair for a name gives its value |
| LinkerPassOne.NRecordsShape | app/src/main/java/lab3_integrated/linker/PassOne.java:68-91 | the loop stops at the first line that is not an N record; every line before it is an N record inside the segment, and the symbols are those records laid over the starting table |
| LinkerPassOne.SegmentShape | app/src/main/java/lab3_integrated/linker/PassOne.java:68-91 | a processed segment has the header's name and size and the given pla; the lines up to its input are N records inside pla + size; its symbols are the segment name at pla overlaid with them |
| LinkerPassOne.SegmentPla | app/src/main/java/lab3_integrated/linker/PassOne.java:68-91 | processSegment records the pla it was given |
| LinkerPassOne.NRecordsOutside | app/src/main/java/lab3_integrated/linker/PassOne.java:68-91 | an N record beyond pla + size among the leading N records makes the loop fail |
| LinkerPassOne.SymbolOutsideFails | app/src/main/java/lab3_integrated/linker/PassOne.java:68-91 | a symbol beyond pla + size makes processSegment fail |
| LinkerPassOne.ProcessSegmentLoopStep | app/src/main/java/lab3_integrated/linker/PassOne.java:68-91 | one turn of the loop enters the record's symbol and moves to the next line |
| LinkerPassOne.LayoutStep | app/src/main/java/lab3_integrated/linker/PassOne.java:45-67 | the layout from input i is input i at pla, then the rest after it |
| LinkerPassOne.SumSizesCons | app/src/main/java/lab3_integrated/linker/PassOne.java:45-67 | the total size of a segment followed by others is its size plus theirs |
| LinkerPassOne.LayoutLength | app/src/main/java/lab3_integrated/linker/PassOne.java:45-67 | a layout that succeeds has one segment per input |
| LinkerPassOne.LayoutSnoc | app/src/main/java/lab3_integrated/linker/PassOne.java:45-67 | one more input processed where the others end extends the layout by its segment |
| LinkerPassOne.LayoutSnocLater | app/src/main/java/lab3_integrated/linker/PassOne.java:45-67 | the same past the first input: the first segment stays in front |
| LinkerPassOne.LayoutPlacedAt | app/src/main/java/lab3_integrated/linker/PassOne.java:45-67 | segment k is input k processed at the starting pla plus the sizes of segments 0..k-1 |
| LinkerPassOne.LayoutFirstError | app/src/main/java/lab3_integrated/linker/PassOne.java:45-67 | the first input that fails stops the layout with its error |
| LinkerPassOne.PassOneFailsAt | app/src/main/java/lab3_integrated/linker/PassOne.java:45-67 | the first input processSegment rejects gives the first pass's error |
| LinkerPassOne.PassOnePlacement | app/src/main/java/lab3_integrated/linker/PassOne.java:45-67 | after a successful first pass, segment k is input k processed at ipla plus the sizes before it, and the total size is the sum of the sizes |
| LinkerPassOne.SegmentPlacedAt | app/src/main/java/lab3_integrated/linker/PassOne.java:45-67 | the same for one segment |
| LinkerPassOne.MergeLastWins | app/src/main/java/lab3_integrated/linker/PassOne.java:45-67 | in the merged table a symbol has the value of the last segment defining it, and a symbol no segment defines is absent |
| LinkerPassOne.PassOne.constructor | app/src/main/java/lab3_integrated/linker/PassOne.java:13-15 | the pass keeps the initial program load address |
| LinkerPassOne.PassOne.ProcessSegment | app/src/main/java/lab3_integrated/linker/PassOne.java:68-91 | the segment, or error, that SegmentSpec describes |
| LinkerPassOne.PassOne.ExecutePassOne | app/src/main/java/lab3_integrated/linker/PassOne.java:45-67 | the result, or first error, that PassOneSpec describes |
| LinkerPassTwo.PatchOf | app/src/main/java/lab3_integrated/linker/PassTwo.java:25-46 | X9 exactly when characters 9-10 are X9, with the symbol after them; X16 likewise after X16 |
| LinkerPassTwo.Patched | app/src/main/java/lab3_integrated/linker/PassTwo.java:25-46 | no patch keeps the word; a patch succeeds exactly when its symbol is in the table, and otherwise fails naming the symbol |
| LinkerPassTwo.Render | app/src/main/java/lab3_integrated/linker/PassTwo.java:47-51 | one line per relocated record |
| LinkerPassTwo.RenderAppend | app/src/main/java/lab3_integrated/linker/PassTwo.java:47-51 | rendering two runs of records is rendering each in turn |
| LinkerPassTwo.RenderGrows | app/src/main/java/lab3_integrated/linker/PassTwo.java:47-51 | records written after earlier output extend it as writing them all at once does |
| LinkerPassTwo.Relocate | app/src/main/java/lab3_integrated/linker/PassTwo.java:19-52 | a line that is not a T record writes nothing; a relocated record comes from a T line |
| LinkerPassTwo.SegmentRecordsErrStays | app/src/main/java/lab3_integrated/linker/PassTwo.java:18-52 | a line that fails fails its segment with its error |
| LinkerPassTwo.SegmentRecordsSnoc | app/src/main/java/lab3_integrated/linker/PassTwo.java:18-52 | one more line: its records follow the earlier ones, or its error ends the segment |
| LinkerPassTwo.LinkRecordsSnoc | app/src/main/java/lab3_integrated/linker/PassTwo.java:18-52 | one more segment: its records follow the earlier ones, or its error ends the link |
| LinkerPassTwo.LinkRecordsErrStays | app/src/main/java/lab3_integrated/linker/PassTwo.java:18-52 | a segment that fails fails the link with its error |
| LinkerPassTwo.RelocateFields | app/src/main/java/lab3_integrated/linker/PassTwo.java:19-52 | a T line whose fields parse is moved by pla and patched as its suffix says |
| LinkerPassTwo.RelocatePlain | app/src/main/java/lab3_integrated/linker/PassTwo.java:19-24 | a T line as the assembler writes it, with no suffix, is moved by pla and keeps its word |
| LinkerPassTwo.RelocateX9 | app/src/main/java/lab3_integrated/linker/PassTwo.java:25-39 | an X9 line adds the low nine bits of the symbol's value to its word, and fails when the symbol is missing |
| LinkerPassTwo.RelocateX16 | app/src/main/java/lab3_integrated/linker/PassTwo.java:40-46 | an X16 line takes the symbol's value as its word, and fails when the symbol is missing |
| LinkerPassTwo.HexFields | app/src/main/java/lab3_integrated/linker/PassTwo.java:19-24 | the address and word fields of a T line read back as the values written into them |
| LinkerPassTwo.X9PatchFillsOffset | app/src/main/java/lab3_integrated/linker/PassTwo.java:25-39 | on a word whose low nine bits are clear, the X9 patch keeps the upper seven bits and puts the symbol's low nine bits below them |
| LinkerPassTwo.TextRecordLoads | app/src/main/java/lab3_integrated/linker/PassTwo.java:47-51 | a relocated record inside memory passes the loader's text validation and loads its word at its address |
| LinkerPassTwo.HeaderLoads | app/src/main/java/lab3_integrated/linker/PassTwo.java:17 | the header of a link whose load address and size fit 16 bits passes the loader's header validation with name "Main  ", that address and that size |
| LinkerPassTwo.HeaderFields | app/src/main/java/lab3_integrated/linker/PassTwo.java:17 | a header of "Main  " with any four-hex-digit start and length passes the loader's header validation, and its name, start and length sit at the columns the loader reads |
| LinkerPassTwo.PassTwoFrame | app/src/main/java/lab3_integrated/linker/PassTwo.java:16-64 | a successful link writes the header first and Main's end record last; without "Main  " it fails; Main's end record inside memory loads back as Main's address |
| LinkerPassTwo.PassTwo.constructor | app/src/main/java/lab3_integrated/linker/PassTwo.java:11-14 | nothing is written yet |
| LinkerPassTwo.PassTwo.WriteSegment | app/src/main/java/lab3_integrated/linker/PassTwo.java:18-52 | the output grows by the segment's records, or the first failing line's error ends it |
| LinkerPassTwo.PassTwo.WriteSegments | app/src/main/java/lab3_integrated/linker/PassTwo.java:18-52 | the output grows by every segment's records in order, or the first error ends the pass |
| LinkerPassTwo.PassTwo.ExecutePassTwo | app/src/main/java/lab3_integrated/linker/PassTwo.java:16-64 | succeeds exactly when PassTwoSpec does, writing its lines, and otherwise fails with its error |
| SimMachine.ToShort | app/src/main/java/lab3_integrated/simulator/machine/Machine.java:168-174 | the `(short)` cast keeps the value modulo 2^16 and leaves a value already in range alone |
| SimMachine.ToUnsigned | app/src/main/java/lab3_integrated/simulator/machine/Machine.java:574-579 | Short.toUnsignedInt gives the 16-bit pattern as a number in [0, 0xFFFF] |
| SimMachine.ShortRoundTrip | app/src/main/java/lab3_integrated/simulator/machine/Machine.java:574-579 | the signed and unsigned readings of a 16-bit pattern convert into each other |
| SimMachine.NotShort | app/src/main/java/lab3_integrated/simulator/machine/Machine.java:298-304 | `~x` is -x - 1, which stays a short |
| SimMachine.CellOfAddress | app/src/main/java/lab3_integrated/simulator/machine/Machine.java:158-165 | a 16-bit address names a page below 128 and a word below 512, and is page * 512 + word |
| SimMachine.CellsDistinct | app/src/main/java/lab3_integrated/simulator/machine/Machine.java:158-165 | different addresses name different memory cells |
| SimMachine.AddressPC | app/src/main/java/lab3_integrated/simulator/machine/Machine.java:559-563 | the address keeps PC's page and takes the nine-bit offset as its word |
| SimMachine.AddressReg | app/src/main/java/lab3_integrated/simulator/machine/Machine.java:574-579 | the unsigned register value plus the index, modulo 0x10000 |
| SimMachine.SignExtend | app/src/main/java/lab3_integrated/simulator/machine/Machine.java:588-599 | a five-bit field becomes its two's-complement value in [-16, 15] |
| SimMachine.FiveBitMasks | app/src/main/java/lab3_integrated/simulator/machine/Machine.java:588-599 | the three masks: bit 4 tests the sign, 0x1F keeps the field, 0xFFE0 sets the upper bits |
| SimMachine.SignExtendOfEncoded | app/src/main/java/lab3_integrated/simulator/machine/Machine.java:588-599 | sign extension undoes the assembler's five-bit encoding of an immediate in [-16, 15] |
| SimMachine.Flags | app/src/main/java/lab3_integrated/simulator/machine/Machine.java:519-549 | the condition codes are three flags |
| SimMachine.ExactlyOneFlag | app/src/main/java/lab3_integrated/simulator/machine/Machine.java:519-549 | exactly one of N, Z, P is set, and it is the one for the value's sign |
| SimMachine.Machine.constructor | app/src/main/java/lab3_integrated/simulator/machine/Machine.java:104-131 | all flags clear, all registers and memory zero, PC zero |
| SimMachine.Machine.GetPc | app/src/main/java/lab3_integrated/simulator/machine/Machine.java:134-137 | returns PC, which becomes the previous PC, and advances PC modulo 0x10000 |
| SimMachine.Machine.SetPc | app/src/main/java/lab3_integrated/simulator/machine/Machine.java:153-155 | PC becomes the start modulo 0x10000 |
| SimMachine.Machine.UpdateCcr | app/src/main/java/lab3_integrated/simulator/machine/Machine.java:519-549 | exactly the flag for the sign of the value is set |
| SimMachine.Machine.WriteResult | app/src/main/java/lab3_integrated/simulator/machine/Machine.java:168-304 | DR gets the result, no other register changes, and the flags follow the result |
| SimMachine.Machine.AddReg | app/src/main/java/lab3_integrated/simulator/machine/Machine.java:168-174 | DR := (short) (SR1 + SR2), other registers unchanged, flags set |
| SimMachine.Machine.AddImm | app/src/main/java/lab3_integrated/simulator/machine/Machine.java:177-184 | DR := (short) (SR + the sign-extended immediate), other registers unchanged, flags set |
| SimMachine.Machine.AndReg | app/src/main/java/lab3_integrated/simulator/machine/Machine.java:187-193 | DR := SR1 & SR2, other registers unchanged, flags set |
| SimMachine.Machine.AndImm | app/src/main/java/lab3_integrated/simulator/machine/Machine.java:196-203 | DR := SR & the sign-extended immediate, other registers unchanged, flags set |
| SimMachine.Machine.Not | app/src/main/java/lab3_integrated/simulator/machine/Machine.java:298-304 | DR := ~SR, other registers unchanged, flags set |
| SimMachine.Machine.Brx | app/src/main/java/lab3_integrated/simulator/machine/Machine.java:206-214 | PC moves to the offset on its page exactly when a selected flag is set |
| SimMachine.Machine.SavePc | app/src/main/java/lab3_integrated/simulator/machine/Machine.java:604-606 | R7 := (short) PC, nothing else changes |
| SimMachine.Machine.Jsr | app/src/main/java/lab3_integrated/simulator/machine/Machine.java:222-230 | PC moves to the offset on its page; R7 holds the old PC exactly when L is 1 |
| SimMachine.Machine.Jsrr | app/src/main/java/lab3_integrated/simulator/machine/Machine.java:233-241 | PC := BaseR + index6 from the old BaseR; R7 holds the old PC exactly when L is 1 |
| SimMachine.Machine.Ld | app/src/main/java/lab3_integrated/simulator/machine/Machine.java:244-254 | DR := the word at the offset on PC's page, flags set |
| SimMachine.Machine.Ldi | app/src/main/java/lab3_integrated/simulator/machine/Machine.java:257-272 | DR := the word at the address held at the offset on PC's page, flags set |
| SimMachine.Machine.Ldr | app/src/main/java/lab3_integrated/simulator/machine/Machine.java:275-285 | DR := the word at BaseR + index6, flags set |
| SimMachine.Machine.Lea | app/src/main/java/lab3_integrated/simulator/machine/Machine.java:288-295 | DR := (short) the address at the offset on PC's page, flags set |
| SimMachine.Machine.Ret | app/src/main/java/lab3_integrated/simulator/machine/Machine.java:307-310 | PC := R7 read as an unsigned 16-bit address (the corrected read of the Findings row) |
| SimMachine.Machine.Store | app/src/main/java/lab3_integrated/simulator/machine/Machine.java:313-348 | the word at the address is the value and no other cell changes |
| SimMachine.Machine.St | app/src/main/java/lab3_integrated/simulator/machine/Machine.java:313-321 | the word at the offset on PC's page := SR, no other cell changes |
| SimMachine.Machine.Sti | app/src/main/java/lab3_integrated/simulator/machine/Machine.java:324-337 | the word at the address held at the offset on PC's page := SR, no other cell changes |
| SimMachine.Machine.Str | app/src/main/java/lab3_integrated/simulator/machine/Machine.java:340-348 | the word at BaseR + index6 := SR, no other cell changes |
| SimMachine.Machine.Trap | app/src/main/java/lab3_integrated/simulator/machine/Machine.java:351-386 | ends exactly on HALT; R7 := PC; R1..R6 unchanged; R0 gets the input for IN, INN and RND (flags set from it) and is otherwise unchanged |
| SimMachine.InKeepsLowByte | app/src/main/java/lab3_integrated/simulator/machine/Machine.java:431-441 | IN keeps the low eight bits of the character: a value in [0, 255] |
| SimMachine.RetAsWrittenLeavesMemory | app/src/main/java/lab3_integrated/simulator/machine/Machine.java:307-310 | with R7 saved from PC 0x9000, the source's signed read gives a negative PC and a negative page |
| SimMachine.RetReturnsToSavedPc | app/src/main/java/lab3_integrated/simulator/machine/Machine.java:307-310 | the unsigned read returns to the saved PC for every 16-bit PC |
| AsmPass1.AddLocSpec | app/src/main/java/lab3_integrated/assembler/Passes/Pass1.java:169-183 | the counter stays strictly inside (-0x10000, 0x10000), and without int overflow it is the sum modulo 0x10000 |
| AsmPass1.IncLocAdvances | app/src/main/java/lab3_integrated/assembler/Passes/Pass1.java:169-183 | from a 16-bit counter, incLoc moves on by the words the line occupies (string length plus one, the block size, zero for .EQU/.ENT/.EXT, else one), modulo 0x10000, and fails exactly where reading those words fails |
| AsmPass1.GetEquValCases | app/src/main/java/lab3_integrated/assembler/Passes/Pass1.java:128-156 | a number is absolute; a known symbol lends its value and class; the class is always A or R; it fails exactly on an empty operand or an unknown name |
| AsmPass1.LiteralInSpec | app/src/main/java/lab3_integrated/assembler/Passes/Pass1.java:37-71 | a line carries at most one literal: the operand's suffix from its first `=`, and none on a .STRZ line |
| AsmPass1.ScanLineSpec | app/src/main/java/lab3_integrated/assembler/Passes/Pass1.java:37-71 | one line: a new label is entered (an ordinary line gets `x` and the hex counter, class R; .EQU gets getEQUVal) and nothing else changes; otherwise .EXT names are noted; the counter moves by incLoc and the literal is appended |
| AsmPass1.ScanLinesAppend | app/src/main/java/lab3_integrated/assembler/Passes/Pass1.java:37-71 | scanning a + b is scanning a, then b from where a left off, stopping at the first failure |
| AsmPass1.FirstDefinitionWins | app/src/main/java/lab3_integrated/assembler/Passes/Pass1.java:37-71 | a label, once in the table, keeps its entry to the end of the run |
| AsmPass1.SymbolBound | app/src/main/java/lab3_integrated/assembler/Passes/Pass1.java:37-71 | a run that goes through never leaves more than 101 symbols (the limit is checked before a line) |
| AsmPass1.LiteralsInOrder | app/src/main/java/lab3_integrated/assembler/Passes/Pass1.java:37-71 | the literal list grows by the literals of the lines, in source order |
| AsmPass1.LabelAddress | app/src/main/java/lab3_integrated/assembler/Passes/Pass1.java:37-71 | a new label on an ordinary line ends up mapped to `x` and the hex counter before its line, class R |
| AsmPass1.ScanThrough | app/src/main/java/lab3_integrated/assembler/Passes/Pass1.java:37-71 | a run that goes through passes line j with the tables the earlier lines leave, and continues from there |
| AsmPass1.ScanLinesFailsAt | app/src/main/java/lab3_integrated/assembler/Passes/Pass1.java:37-71 | once a prefix fails, the whole run fails the same way |
| AsmPass1.LitSlots | app/src/main/java/lab3_integrated/assembler/Passes/Pass1.java:82-93 | the counter ends one word per literal on; each literal sits at the slot of its last occurrence; other entries are kept |
| AsmPass1.LiteralBound | app/src/main/java/lab3_integrated/assembler/Passes/Pass1.java:82-93 | starting from at most 51 entries the pool never holds more than 51 |
| AsmPass1.LitLayoutStops | app/src/main/java/lab3_integrated/assembler/Passes/Pass1.java:82-93 | once a prefix of the pool fails, the whole layout fails the same way |
| AsmPass1.Pass1.constructor | app/src/main/java/lab3_integrated/assembler/Passes/Pass1.java:22-27 | the tables and lists start empty |
| AsmPass1.Pass1.FillTables | app/src/main/java/lab3_integrated/assembler/Passes/Pass1.java:22-27 | the symbol pass, then the literal pool laid out where it ends; the first failure is the answer |
| AsmPass1.Pass1.FillSymTable | app/src/main/java/lab3_integrated/assembler/Passes/Pass1.java:37-71 | the fields end as the symbol pass over the lines between .ORIG and .END leaves them, and the answer is its counter or its error |
| AsmPass1.Pass1.FillSymLine | app/src/main/java/lab3_integrated/assembler/Passes/Pass1.java:37-71 | one turn of the loop: the fields end as ScanLine gives them |
| AsmPass1.Pass1.EnterLabel | app/src/main/java/lab3_integrated/assembler/Passes/Pass1.java:37-71 | the label part of a turn: the symbol table and external list end as Entered gives them |
| AsmPass1.Pass1.FillLitTable | app/src/main/java/lab3_integrated/assembler/Passes/Pass1.java:82-93 | the literal table ends as the pool layout gives it and the answer is the next free slot, or the layout's error |
| AsmPass2.HexDigits4 | app/src/main/java/lab3_integrated/assembler/Passes/Pass2.java:1820-1829 | the padding loop produces the four-digit rendering of the counter |
| AsmPass2.PadName | app/src/main/java/lab3_integrated/assembler/Passes/Pass2.java:1657-1702 | origOp's loop pads the segment name with spaces to six characters |
| AsmPass2.Pass2.constructor | app/src/main/java/lab3_integrated/assembler/Passes/Pass2.java:95-116 | a new pass starts at LC 0, absolute, with initial address 0000 and nothing written |
| AsmPass2.Pass2.AddressFromLC | app/src/main/java/lab3_integrated/assembler/Passes/Pass2.java:1820-1829 | returns the old LC as four hex digits and moves LC on by the size modulo 0x10000 |
| AsmPass2.Pass2.AssembleMachineOpLine | app/src/main/java/lab3_integrated/assembler/Passes/Pass2.java:287-380 | the record and new fields are those MachineLine gives: `T`, the encoded word and LC moved on by the size, or the encoder's error |
| AsmPass2.Pass2.EntOp | app/src/main/java/lab3_integrated/assembler/Passes/Pass2.java:1485-1512 | the records are those Ent gives: at most five names, one `N` line per exportable name |
| AsmPass2.Pass2.ExtOp | app/src/main/java/lab3_integrated/assembler/Passes/Pass2.java:1524-1547 | the external table is updated as Ext gives it: every new name at x0000, refusing a name already in the symbol table |
| AsmPass2.Pass2.OrigOp | app/src/main/java/lab3_integrated/assembler/Passes/Pass2.java:1657-1702 | the header record and new fields are those Orig gives |
| AsmPass2.Pass2.StrzOp | app/src/main/java/lab3_integrated/assembler/Passes/Pass2.java:1716-1760 | the records and new LC are those Strz gives: one record per character, then the zero word |
| AsmPass2.Pass2.AssemblePseudoOpLine | app/src/main/java/lab3_integrated/assembler/Passes/Pass2.java:396-437 | the directive's record and its effect on the fields are those PseudoLine gives |
| AsmPass2.Pass2.LiteralPool | app/src/main/java/lab3_integrated/assembler/Passes/Pass2.java:224-238 | given an iteration order that visits every key of the literal table once, the loop writes the records LiteralRecords gives in that order, or stops with the first literal's error |
| AsmPass2.Pass2.AssembleLine | app/src/main/java/lab3_integrated/assembler/Passes/Pass2.java:127-211 | one line of parseInput: a directive of the pseudo-op table, otherwise a machine instruction, as LineStep gives it |
| AsmPass2.Pass2.AssembleNext | app/src/main/java/lab3_integrated/assembler/Passes/Pass2.java:127-211 | one turn of parseInput's loop extends the object file and the fields exactly as Assembled does for one more line, or fails with its error |
| AsmPass2.Pass2.ParseInput | app/src/main/java/lab3_integrated/assembler/Passes/Pass2.java:127-211 | the object file and the fields after the pass are those Assembled gives over all lines (the literal pool before the last line's records), or its first error |
| Pass2Records.OneWordLine | app/src/main/java/lab3_integrated/assembler/Passes/Pass2.java:287-380 | a one-word instruction writes `T`, LC and the word, and moves LC on by one |
| Pass2Records.ArithmeticLine | app/src/main/java/lab3_integrated/assembler/Passes/Pass2.java:287-380 | an ADD or AND line with three registers writes one text record whose word is the table's opcode, DR, SR1, 000 and SR2; LC moves on by one and nothing else changes |
| Pass2Records.ArithmeticMachineWord | app/src/main/java/lab3_integrated/assembler/Passes/Pass2.java:637-711 | the word of ADD or AND with three registers is opcode, DR, SR1, 000 and SR2 |
| Pass2Records.ArithmeticLead | app/src/main/java/lab3_integrated/assembler/Passes/Pass2.java:287-380 | ADD and AND have no flag or trailing bits, so the leading field is the four-bit opcode |
| Pass2Records.BlkwSpec | app/src/main/java/lab3_integrated/assembler/Passes/Pass2.java:1391-1415 | .BLKW is accepted exactly for a number or absolute symbol whose block length is at least one; it then writes nothing and moves LC on by that length modulo 2^16 |
| Pass2Records.EndSpec | app/src/main/java/lab3_integrated/assembler/Passes/Pass2.java:1426-1474 | the end record names the origin when there is no operand, otherwise the four hex digits of the number or of the address the symbol resolves to; an unresolvable symbol is refused with its error |
| Pass2Records.EquSpec | app/src/main/java/lab3_integrated/assembler/Passes/Pass2.java:1558-1571 | .EQU is accepted exactly for a number that parses, or a symbol that is defined or external |
| Pass2Records.EntRecordsSpec | app/src/main/java/lab3_integrated/assembler/Passes/Pass2.java:1485-1512 | .ENT is accepted exactly when every name is exportable (a relative, non-external symbol), and then writes one `N<name>=<value>` line per name, in order |
| Pass2Records.EntRecordsFailsAt | app/src/main/java/lab3_integrated/assembler/Passes/Pass2.java:1485-1512 | .ENT stops at the first refused name, whatever follows |
| Pass2Records.ExtTableSpec | app/src/main/java/lab3_integrated/assembler/Passes/Pass2.java:1524-1547 | .EXT is accepted exactly when no name is already a symbol; then every name maps to x0000 and every other entry stays |
| Pass2Records.ExtTableFailsAt | app/src/main/java/lab3_integrated/assembler/Passes/Pass2.java:1524-1547 | .EXT stops at the first name already in the symbol table, whatever follows |
| Pass2Records.FillSpec | app/src/main/java/lab3_integrated/assembler/Passes/Pass2.java:1582-1645 | .FILL is accepted exactly when its target is a usable value; it then writes the value's low 16 bits at LC with the X16 suffix, and LC moves on by one |
| Pass2Records.FillNumber | app/src/main/java/lab3_integrated/assembler/Passes/Pass2.java:1582-1645 | a number operand of .FILL stands for itself and takes no suffix |
| Pass2Records.PadRight | app/src/main/java/lab3_integrated/assembler/Passes/Pass2.java:1657-1702 | the segment name padded with spaces to six characters, its own characters first |
| Pass2Records.ParseUnsignedHexWord | app/src/main/java/lab3_integrated/assembler/Passes/Pass2.java:1657-1702 | parseUnsignedInt reads a four-digit word back as its value |
| Pass2Records.OrigSpec | app/src/main/java/lab3_integrated/assembler/Passes/Pass2.java:1657-1702 | the header record is `H`, the padded name, the origin and the four-digit length; no operand makes the segment relocatable at 0000, an address sets LC and the initial address; sizes over xFFFF, and relocatable sizes over 512, are refused |
| Pass2Records.AddressRange | app/src/main/java/lab3_integrated/assembler/Passes/Pass2.java:471-489 | an address addressToHex accepts lies in [0, xFFFF] |
| Pass2Records.StrzTextNext | app/src/main/java/lab3_integrated/assembler/Passes/Pass2.java:1716-1760 | one more character's record follows the others, at the address they leave |
| Pass2Records.StrzTextRecords | app/src/main/java/lab3_integrated/assembler/Passes/Pass2.java:1716-1760 | .STRZ's loop writes one record per character and leaves LC the string's length further on |
| Pass2Records.StrzStep | app/src/main/java/lab3_integrated/assembler/Passes/Pass2.java:1716-1760 | one turn of the loop appends the last character's record and moves LC on by one |
| Pass2Records.CharRecordWord | app/src/main/java/lab3_integrated/assembler/Passes/Pass2.java:1716-1760 | the k-th character's record is `T`, LC plus k and the character's code as four hex digits |
| Pass2Records.CharRecordLength | app/src/main/java/lab3_integrated/assembler/Passes/Pass2.java:1716-1760 | each character record is ten characters long |
| Pass2Records.CharRecordsSlices | app/src/main/java/lab3_integrated/assembler/Passes/Pass2.java:1716-1760 | the k-th ten characters of the .STRZ text are the k-th character's record |
| Pass2Records.StrzSpec | app/src/main/java/lab3_integrated/assembler/Passes/Pass2.java:1716-1760 | .STRZ writes the character records, then a zero word, and moves LC on by the length plus one |
| Pass2Records.LiteralRecordSpec | app/src/main/java/lab3_integrated/assembler/Passes/Pass2.java:224-238 | a literal in the 16-bit space is written as `T`, its address and the low 16 bits of its value |
| Pass2Records.LiteralRecordsFailsAt | app/src/main/java/lab3_integrated/assembler/Passes/Pass2.java:224-238 | the literal pool stops at the first literal whose record fails |
| Pass2Records.LiteralPoolComplete | app/src/main/java/lab3_integrated/assembler/Passes/Pass2.java:136-148 | when the iteration visits every key of the literal table once and every literal is valid and placed in memory, the pool holds exactly one ten-character record per literal, the i-th being the i-th visited literal's |
| Pass2Records.LiteralRecordsSpec | app/src/main/java/lab3_integrated/assembler/Passes/Pass2.java:224-238 | the pool's records follow one another in the table's iteration order: the i-th ten characters are the i-th literal's record |
| Pass2Records.LiteralRecordLength | app/src/main/java/lab3_integrated/assembler/Passes/Pass2.java:224-238 | a literal placed in the 16-bit space has a ten-character record |
| Pass2Records.AssembledFailsAt | app/src/main/java/lab3_integrated/assembler/Passes/Pass2.java:127-211 | once a prefix of the lines fails, the whole pass fails the same way |
| Simulator.DecodeWord | app/src/main/java/lab3_integrated/simulator/simulator/Simulator.java:70-205 | every 16-bit word decodes to an instruction whose fields fit their widths |
| Simulator.DecodeWordOpcode | app/src/main/java/lab3_integrated/simulator/simulator/Simulator.java:70-205 | the decoded instruction is of the kind the word's top four bits name |
| Simulator.BinaryReadAsDecimal | app/src/main/java/lab3_integrated/simulator/simulator/Simulator.java:70-205 | reading binary digits as a decimal number gives their decimal spelling, as the switch's case labels expect |
| Simulator.FieldValue | app/src/main/java/lab3_integrated/simulator/simulator/Simulator.java:70-205 | each substring of the sixteen-digit rendering read with parseInt(.., 2) is the value of the corresponding bits |
| Simulator.SpellingTable | app/src/main/java/lab3_integrated/simulator/simulator/Simulator.java:70-205 | the sixteen case labels are the decimal spellings of the four opcode bits |
| Simulator.FieldsOfWord | app/src/main/java/lab3_integrated/simulator/simulator/Simulator.java:70-205 | every field the switch reads, as bits of the word |
| Simulator.OpcodeLabel | app/src/main/java/lab3_integrated/simulator/simulator/Simulator.java:70-205 | the four opcode characters read in decimal give the case label of the word's opcode |
| Simulator.DecodeAgrees | app/src/main/java/lab3_integrated/simulator/simulator/Simulator.java:70-205 | decoding the sixteen-digit rendering as the source does gives the arithmetic decoding of the word |
| Simulator.AddLeadingZeros | app/src/main/java/lab3_integrated/simulator/simulator/Simulator.java:364-370 | the string padded with zeros to sixteen characters, ending with the original |
| Simulator.RenderedWord | app/src/main/java/lab3_integrated/simulator/simulator/Simulator.java:70-205 | toBinaryString of the short, cut from index 16 when longer and padded, is the sixteen binary digits of the word |
| Simulator.RenderedNonNegative | app/src/main/java/lab3_integrated/simulator/simulator/Simulator.java:70-205 | a non-negative short has at most fifteen binary digits, padded to sixteen |
| Simulator.RenderedNegative | app/src/main/java/lab3_integrated/simulator/simulator/Simulator.java:70-205 | a negative short renders as 32 digits whose last sixteen are its unsigned value |
| Simulator.InstructionString | app/src/main/java/lab3_integrated/simulator/simulator/Simulator.java:70-205 | the method's first statements produce the sixteen binary digits of the word |
| Simulator.Effect | app/src/main/java/lab3_integrated/simulator/simulator/Simulator.java:70-205 | executing an instruction keeps the machine well formed and leaves the previous PC alone |
| Simulator.RegisterWriteFrame | app/src/main/java/lab3_integrated/simulator/simulator/Simulator.java:70-205 | ADD, AND, NOT, the loads and LEA change only DR and the flags, which are the one for DR's sign; PC and memory stay |
| Simulator.AddWraps | app/src/main/java/lab3_integrated/simulator/simulator/Simulator.java:70-205 | ADD leaves DR the sum modulo 0x10000 read as a short |
| Simulator.StoreAddress | app/src/main/java/lab3_integrated/simulator/simulator/Simulator.java:70-205 | a store writes a 16-bit address |
| Simulator.StoreFrame | app/src/main/java/lab3_integrated/simulator/simulator/Simulator.java:70-205 | ST, STI and STR write SR into one cell and change nothing else |
| Simulator.BranchFrame | app/src/main/java/lab3_integrated/simulator/simulator/Simulator.java:70-205 | BRx moves PC only when a selected flag is set, to the offset on PC's page; registers, flags and memory stay |
| Simulator.AndImmClears | app/src/main/java/lab3_integrated/simulator/machine/Machine.java:196-203 | AND with the immediate 0 clears DR whatever the source register holds, sets only Z, and changes nothing else |
| Simulator.AndImmCopies | app/src/main/java/lab3_integrated/simulator/machine/Machine.java:196-203 | AND with the immediate 0x1F, which sign-extends to all ones, copies the source register into DR with the flag for its sign, and changes nothing else |
| Simulator.CallAndReturn | app/src/main/java/lab3_integrated/simulator/simulator/Simulator.java:70-205 | JSR and JSRR save PC in R7 exactly when L is 1, and RET afterwards returns to it (with the corrected RET of the Findings row) |
| Simulator.TrapFrame | app/src/main/java/lab3_integrated/simulator/simulator/Simulator.java:70-205 | TRAP keeps PC, memory and R1-R6, puts (short) PC in R7, and changes the flags only for IN, INN and RND |
| Simulator.CycleAdvancesPc | app/src/main/java/lab3_integrated/simulator/simulator/Simulator.java:25-63 | outside the jumps, every fetched instruction leaves PC at the word after it |
| Simulator.Image | app/src/main/java/lab3_integrated/simulator/simulator/Simulator.java:70-205 | memory by 16-bit address is the cell at that address's page and word |
| Simulator.Snapshot | app/src/main/java/lab3_integrated/simulator/simulator/Simulator.java:70-205 | the machine as a well-formed value |
| Simulator.Execute | app/src/main/java/lab3_integrated/simulator/simulator/Simulator.java:70-205 | the switch changes the machine exactly as Effect says and stops exactly on TRAP x25 |
| Simulator.ExecuteAlu | app/src/main/java/lab3_integrated/simulator/simulator/Simulator.java:70-205 | the ADD, AND and NOT cases change the machine as Effect says |
| Simulator.ExecuteLoad | app/src/main/java/lab3_integrated/simulator/simulator/Simulator.java:70-205 | the LD, LDI, LDR and LEA cases change the machine as Effect says |
| Simulator.ExecuteStore | app/src/main/java/lab3_integrated/simulator/simulator/Simulator.java:70-205 | the ST, STI and STR cases change the machine as Effect says |
| Simulator.ExecuteControl | app/src/main/java/lab3_integrated/simulator/simulator/Simulator.java:70-205 | the BRx, DBUG, JSR, JSRR and RET cases change the machine as Effect says |
| Simulator.StoredImage | app/src/main/java/lab3_integrated/simulator/simulator/Simulator.java:70-205 | after a store to one cell, memory is the old image updated there |
| Simulator.ParseInstruction | app/src/main/java/lab3_integrated/simulator/simulator/Simulator.java:70-205 | decoding the word and executing it changes the machine as Effect of the decoded instruction, halting exactly on TRAP x25 |
| Simulator.Cycle | app/src/main/java/lab3_integrated/simulator/simulator/Simulator.java:25-63 | one turn of the main loop leaves the machine well formed with the fetched address as previous PC |
| Simulator.HaltKeepsMemory | app/src/main/java/lab3_integrated/simulator/simulator/Simulator.java:25-63 | HALT leaves memory as it was |
| Simulator.Execution | app/src/main/java/lab3_integrated/simulator/simulator/Simulator.java:25-63 | the main loop runs at most the loop count of instructions; without a halt it runs exactly that many; a halt is the last instruction run |
| Simulator.Run | app/src/main/java/lab3_integrated/simulator/simulator/Simulator.java:25-63 | the loop changes the machine and counts instructions exactly as Execution says |
| Simulator.FetchAndRun | app/src/main/java/lab3_integrated/simulator/simulator/Simulator.java:25-63 | one turn of the loop (getPC, fetch, ParseInstruction) is Cycle |
| Simulator.IsNum | app/src/main/java/lab3_integrated/simulator/simulator/Simulator.java:372-379 | true exactly when every character is a decimal digit, the empty string included |
| Simulator.LoopCountAsWrittenFails | app/src/main/java/lab3_integrated/simulator/simulator/Simulator.java:25-63 | an empty answer passes isNum and makes parseInt fail |
| Simulator.LoopCount | app/src/main/java/lab3_integrated/simulator/simulator/Simulator.java:25-63 | the count is never negative; an answer with a non-digit, and the empty answer, give 1000; every other answer gets the outcome the source gives it |
| Simulator.LoopCountOfNumber | app/src/main/java/lab3_integrated/simulator/simulator/Simulator.java:25-63 | typing a non-negative int gives that count back |
| Simulator.DigitsCount | app/src/main/java/lab3_integrated/simulator/simulator/Simulator.java:44-46 | parseInt of a non-empty digit string is never negative, and fails exactly when the digits exceed the int range |
| Simulator.LoopCountOverflow | app/src/main/java/lab3_integrated/simulator/simulator/Simulator.java:44-46 | a digit string beyond the int range makes the count fail, as parseInt throws in the source |
| StringParser.ParseNumber | app/src/main/java/lab3_integrated/assembler/Passes/String_Parser.java:533-559 | a successful reading is either the not-a-number marker -0xFFFF or a Java int; anything that is neither an `x`/`#` token nor a literal of one reads as the marker |
| StringParser.CanParseIntMeaning | app/src/main/java/lab3_integrated/assembler/Passes/String_Parser.java:48-80 | canParseInt holds exactly for tokens of at least two characters that parse, hex ones in [0, 0xFFFF] and decimal ones in [-32768, 65535] |
| StringParser.ParseInRange | app/src/main/java/lab3_integrated/assembler/Passes/String_Parser.java:93-102 | the range check shared by the parse functions succeeds exactly when the token reads, and returns the token's value or the marker |
| StringParser.ParseImmediate | app/src/main/java/lab3_integrated/assembler/Passes/String_Parser.java:93-102 | succeeds exactly when the token reads; a non-marker result is the token's value, within the immediate ranges |
| StringParser.ParseIndex | app/src/main/java/lab3_integrated/assembler/Passes/String_Parser.java:112-121 | succeeds exactly when the token reads; a non-marker result is the token's value, in [0, 63] |
| StringParser.ParseTrapvect | app/src/main/java/lab3_integrated/assembler/Passes/String_Parser.java:134-143 | succeeds exactly when the token reads; a non-marker result is the token's value, in [0, 255] |
| StringParser.ParseAddress | app/src/main/java/lab3_integrated/assembler/Passes/String_Parser.java:155-164 | succeeds exactly when the token reads; a non-marker result is the token's value, in [0, 65535] |
| StringParser.ParseUnionRange | app/src/main/java/lab3_integrated/assembler/Passes/String_Parser.java:227-236 | succeeds exactly when the token reads; a non-marker result is the token's value, within the .FILL ranges |
| StringParser.ImmediateRoundTrip | app/src/main/java/lab3_integrated/assembler/Passes/String_Parser.java:93-102 | a `#` token of v reads back as v exactly when v is in [-16, 15], an `x` token exactly when v is at most 0x1F; otherwise the marker |
| StringParser.IndexRoundTrip | app/src/main/java/lab3_integrated/assembler/Passes/String_Parser.java:112-121 | an index token of v reads back as v exactly when v is in [0, 63], in either notation |
| StringParser.TrapvectRoundTrip | app/src/main/java/lab3_integrated/assembler/Passes/String_Parser.java:134-143 | a trap vector token of v reads back as v exactly when v is in [0, 255], in either notation |
| StringParser.AddressRoundTrip | app/src/main/java/lab3_integrated/assembler/Passes/String_Parser.java:155-164 | an address token of v reads back as v exactly when v is in [0, 65535], in either notation |
| StringParser.UnionRangeRoundTrip | app/src/main/java/lab3_integrated/assembler/Passes/String_Parser.java:227-236 | a .FILL token of v reads back as v exactly when v is in [-32768, 32767] (decimal) or [0, 0xFFFF] (hex) |
| StringParser.ParseAddressHexWord | app/src/main/java/lab3_integrated/assembler/Passes/String_Parser.java:155-164 | `x` followed by the four hex digits of a 16-bit value parses back to that value |
| StringParser.DecimalLiteralRoundTrip | app/src/main/java/lab3_integrated/assembler/Passes/String_Parser.java:176-184 | a literal `=#v` is a literal exactly when v is in [-32768, 32767], and it reads as v |
| StringParser.HexLiteralRoundTrip | app/src/main/java/lab3_integrated/assembler/Passes/String_Parser.java:176-184 | a literal `=x...` is a literal exactly when its value is at most 0xFFFF, and it reads as that value |
| StringParser.ParseLiteralString | app/src/main/java/lab3_integrated/assembler/Passes/String_Parser.java:195-214 | every literal in range gives a string, namely the four lower-case hex digits of its low 16 bits |
| StringParser.IndexToBinaryString | app/src/main/java/lab3_integrated/assembler/Passes/String_Parser.java:246-264 | succeeds exactly for index tokens that are in range, giving the six bits of the index |
| StringParser.PageRangeAndOffset | app/src/main/java/lab3_integrated/assembler/Passes/String_Parser.java:276-307 | a result is the nine-bit offset of a parsed 16-bit address |
| StringParser.PageRangeAndOffsetOk | app/src/main/java/lab3_integrated/assembler/Passes/String_Parser.java:276-307 | success means the address parses, lies on the page of LC + 1 (wrapped at 16 bits), and the result is its offset within the page |
| StringParser.PageRangeAndOffsetSpec | app/src/main/java/lab3_integrated/assembler/Passes/String_Parser.java:276-307 | with LC written as four hex digits, the call succeeds exactly when the address is on the page of LC + 1 |
| StringParser.OpcodeBinaryString | app/src/main/java/lab3_integrated/assembler/Passes/String_Parser.java:315-323 | an opcode 0..15 becomes its four-bit field |
| StringParser.RegisterToBinaryString | app/src/main/java/lab3_integrated/assembler/Passes/String_Parser.java:333-351 | succeeds exactly for register tokens 0..7, giving the three bits of the register |
| StringParser.ConvertBinaryToHexString | app/src/main/java/lab3_integrated/assembler/Passes/String_Parser.java:360-369 | succeeds exactly when parseUnsignedInt accepts the bits; a binary word of up to 16 bits becomes the four hex digits of its value |
| StringParser.ImmediateToBinaryString | app/src/main/java/lab3_integrated/assembler/Passes/String_Parser.java:379-401 | succeeds exactly for immediate tokens in range, giving the five low bits of the value's two's complement |
| StringParser.ImmediateSignDecode | app/src/main/java/lab3_integrated/assembler/Passes/String_Parser.java:379-401 | the five bits of a decimal immediate, read as a signed number, give the immediate back |
| StringParser.TrapToBinaryString | app/src/main/java/lab3_integrated/assembler/Passes/String_Parser.java:411-429 | succeeds exactly for trap vector tokens in range, giving the eight bits of the vector |
| StringParser.LiteralValue | app/src/main/java/lab3_integrated/assembler/Passes/String_Parser.java:440-461 | succeeds exactly when the operand is a literal in the literal table, giving `x` and the four hex digits of its address |
| StringParser.AddressToHex | app/src/main/java/lab3_integrated/assembler/Passes/String_Parser.java:471-489 | succeeds exactly for address tokens in range, giving the four hex digits of the address |
| StringParser.FillHexString | app/src/main/java/lab3_integrated/assembler/Passes/String_Parser.java:499-521 | succeeds exactly for .FILL tokens in range, giving the four hex digits of the value's low 16 bits |
| MachineOpTable.Opcode | app/src/main/java/lab3_integrated/assembler/MOT/Machine_Op_Table.java:52-105 | every instruction's opcode is a four-bit value, as loadTable stores it |
| MachineOpTable.LoadedTable | app/src/main/java/lab3_integrated/assembler/MOT/Machine_Op_Table.java:52-105 | the loaded table holds exactly the 25 mnemonics, each under its own name, with size one and a four-bit opcode |
| MachineOpTable.LoadedKeys | app/src/main/java/lab3_integrated/assembler/MOT/Machine_Op_Table.java:52-105 | the keys of the loaded table are the 25 mnemonics |
| MachineOpTable.LoadedEntries | app/src/main/java/lab3_integrated/assembler/MOT/Machine_Op_Table.java:52-105 | every instruction is stored under its mnemonic with its opcode and size one |
| MachineOpTable.SharedOpcodes | app/src/main/java/lab3_integrated/assembler/MOT/Machine_Op_Table.java:52-105 | the only opcodes shared between instructions are 0 (the eight branches), 4 (JSR and JMP) and 12 (JSRR and JMPR) |
| MachineOpTable.MachineOpTable.constructor | app/src/main/java/lab3_integrated/assembler/MOT/Machine_Op_Table.java:40-43 | a new table is the loaded table |
| MachineOpTable.MachineOpTable.LoadTable | app/src/main/java/lab3_integrated/assembler/MOT/Machine_Op_Table.java:52-105 | the table becomes the old table with the 25 puts applied |
| MachineOpTable.MachineOpTable.GetSize | app/src/main/java/lab3_integrated/assembler/MOT/Machine_Op_Table.java:115-122 | one for a mnemonic, -1 for anything else |
| MachineOpTable.MachineOpTable.ContainsOp | app/src/main/java/lab3_integrated/assembler/MOT/Machine_Op_Table.java:132-134 | true exactly for the 25 mnemonics |
| MachineOpTable.MachineOpTable.GetOpcode | app/src/main/java/lab3_integrated/assembler/MOT/Machine_Op_Table.java:144-151 | a four-bit opcode for a mnemonic, -1 for anything else |
| MachineOpTable.MachineOpTable.GetInstructionName | app/src/main/java/lab3_integrated/assembler/MOT/Machine_Op_Table.java:161-168 | the instruction named by a mnemonic, none for anything else |
| PseudoOpTable.LoadedTable | app/src/main/java/lab3_integrated/assembler/POT/Pseudo_Op_Table.java:41-58 | the loaded table holds exactly the eight directives, distinct, each with its own constant; only .FILL has length one; only .BLKW and .STRZ are variable |
| PseudoOpTable.LoadedByKey | app/src/main/java/lab3_integrated/assembler/POT/Pseudo_Op_Table.java:41-58 | what each key of the loaded table is stored with |
| PseudoOpTable.DirectivesDistinct | app/src/main/java/lab3_integrated/assembler/POT/Pseudo_Op_Table.java:41-58 | no two directives share a name |
| PseudoOpTable.LoadedEntries | app/src/main/java/lab3_integrated/assembler/POT/Pseudo_Op_Table.java:41-58 | each directive is stored under its dotted name with its length and format |
| PseudoOpTable.LoadedKeys | app/src/main/java/lab3_integrated/assembler/POT/Pseudo_Op_Table.java:41-58 | every key of the loaded table is a directive |
| PseudoOpTable.BlockLength | app/src/main/java/lab3_integrated/assembler/POT/Pseudo_Op_Table.java:130-144 | -1 or a count in [1, 65535]; a count exactly when the operand parses as an address of at least one, and then that address |
| PseudoOpTable.BlockLengthRoundTrip | app/src/main/java/lab3_integrated/assembler/POT/Pseudo_Op_Table.java:130-144 | a `#` or `x` block length is accepted exactly when it lies in [1, 65535] |
| PseudoOpTable.PseudoOpTable.constructor | app/src/main/java/lab3_integrated/assembler/POT/Pseudo_Op_Table.java:28-32 | a new table is the loaded table |
| PseudoOpTable.PseudoOpTable.LoadTable | app/src/main/java/lab3_integrated/assembler/POT/Pseudo_Op_Table.java:41-58 | the table becomes the old table with the eight puts applied |
| PseudoOpTable.PseudoOpTable.ContainsOp | app/src/main/java/lab3_integrated/assembler/POT/Pseudo_Op_Table.java:68-70 | true exactly for the eight directives |
| PseudoOpTable.PseudoOpTable.GetInstructionName | app/src/main/java/lab3_integrated/assembler/POT/Pseudo_Op_Table.java:80-87 | the constant a directive names, none for anything else |
| PseudoOpTable.PseudoOpTable.GetLength | app/src/main/java/lab3_integrated/assembler/POT/Pseudo_Op_Table.java:97-104 | 1 for .FILL, 0 for the other directives, -1 for anything else |
| PseudoOpTable.PseudoOpTable.GetFormat | app/src/main/java/lab3_integrated/assembler/POT/Pseudo_Op_Table.java:113-120 | variable for .BLKW and .STRZ, definite for the other directives, none for anything else |
| AsmValidate.AlnumRunSpec | app/src/main/java/lab3_integrated/assembler/lab2/Validate.java:466-478 | the character-by-character pattern [A-Za-z0-9]+ matches exactly the non-empty strings of letters and digits |
| AsmValidate.CheckSymbolSpec | app/src/main/java/lab3_integrated/assembler/lab2/Validate.java:466-478 | checkSymbol accepts exactly the names of one to six letters and digits that start with a letter other than x |
| AsmValidate.StripCommentSpec | app/src/main/java/lab3_integrated/assembler/lab2/Validate.java:121-123 | stripComment keeps the text before the first semicolon, keeps a line without one whole, and fails only on a non-empty line made of semicolons |
| AsmValidate.FirstNamedSpec | app/src/main/java/lab3_integrated/assembler/lab2/Validate.java:534-562 | the search over the directive names stops at one that occurs in the line, and no earlier one occurs |
| AsmValidate.GetLineType | app/src/main/java/lab3_integrated/assembler/lab2/Validate.java:534-562 | fails exactly on a blank line; COMMENT exactly for comment lines; otherwise the first directive named in the line, or UNKNOWN |
| AsmValidate.SplitLineSpec | app/src/main/java/lab3_integrated/assembler/lab2/Validate.java:488-527 | validateAndSplitLine fails as too short exactly below 17 characters, and succeeds exactly when the separator columns are blank and the label passes the label rule, with the trimmed columns as result |
| AsmValidate.SplitFixedColumns | app/src/main/java/lab3_integrated/assembler/lab2/Validate.java:488-527 | a line laid out in the fixed columns from trimmed parts splits back into exactly those parts |
| AsmValidate.OperandCheckShapes | app/src/main/java/lab3_integrated/assembler/lab2/Validate.java:326-439 | what each operand shape accepts: a register is R0..R7, a number is an `x` or `#` numeral or a symbol, a literal is `=` and a numeral, none is blank or a symbol; only "R" alone throws |
| AsmValidate.OperandsVerdict | app/src/main/java/lab3_integrated/assembler/lab2/Validate.java:326-439 | a wrong number of comma-separated pieces is rejected unless the first expected shape is NONE |
| AsmValidate.OperandsFromAccepts | app/src/main/java/lab3_integrated/assembler/lab2/Validate.java:326-439 | the piece-by-piece loop accepts exactly when every remaining expected position has a piece of its shape |
| AsmValidate.OperandsAccepted | app/src/main/java/lab3_integrated/assembler/lab2/Validate.java:326-439 | checkOperands accepts exactly when the piece count matches (or the first shape is NONE) and every position has a piece of its shape |
| AsmValidate.FirstAcceptedSpec | app/src/main/java/lab3_integrated/assembler/lab2/Validate.java:237-318 | trying the shapes in order accepts exactly when some shape accepts and every earlier one rejects without throwing |
| AsmValidate.ValidateOperandSpec | app/src/main/java/lab3_integrated/assembler/lab2/Validate.java:237-318 | validateOperand accepts exactly a non-empty operand of a machine operation that one of its shapes accepts, every earlier shape rejecting it |
| AsmValidate.StripArray | app/src/main/java/lab3_integrated/assembler/lab2/Validate.java:217-227 | the trimmed words up to, and not including, the first one that starts with a semicolon |
| AsmValidate.FinishedSpec | app/src/main/java/lab3_integrated/assembler/lab2/Validate.java:49-114 | validate's last steps keep the kind and the counter, record at most the line's own .ORIG or .END, and accept the columns with the operands unquoted; an accepted .ORIG comes first and has a valid label |
| AsmValidate.CheckedSpec | app/src/main/java/lab3_integrated/assembler/lab2/Validate.java:49-114 | the same, one stage earlier: an accepted .ENT or .EXT comes two lines after the last counted line and is counted itself |
| AsmValidate.ClassifiedSpec | app/src/main/java/lab3_integrated/assembler/lab2/Validate.java:49-114 | the same facts once the comment is stripped and the line split into columns |
| AsmValidate.ValidationFrame | app/src/main/java/lab3_integrated/assembler/lab2/Validate.java:49-114 | a blank line changes nothing; a comment line only sets the kind and counts itself; otherwise the counter grows by at most one and the .ORIG/.END record by at most one entry |
| AsmValidate.AcceptedColumns | app/src/main/java/lab3_integrated/assembler/lab2/Validate.java:49-114 | an accepted line is the comment-stripped line split into its trimmed columns, with the label passing the label rule, the operands unquoted and the line number attached |
| AsmValidate.AcceptedPlacement | app/src/main/java/lab3_integrated/assembler/lab2/Validate.java:49-114 | an accepted .ENT/.EXT line comes two lines after the last counted line and is counted; an accepted .ORIG line comes first, has a valid label and is recorded |
| AsmValidate.Validate.constructor | app/src/main/java/lab3_integrated/assembler/lab2/Validate.java:13-15 | a new validator has no kind, an empty .ORIG/.END record and the counter at one |
| AsmValidate.Validate.CheckOperands | app/src/main/java/lab3_integrated/assembler/lab2/Validate.java:326-439 | the method's verdict is the one OperandsVerdict describes, for the current line's kind |
| AsmValidate.Validate.Validate | app/src/main/java/lab3_integrated/assembler/lab2/Validate.java:49-114 | the new fields and the answer are those Validation gives for the old fields, and only .ORIG/.END are ever recorded |
| AsmValidate.Validate.CheckColumns | app/src/main/java/lab3_integrated/assembler/lab2/Validate.java:49-114 | the split-line part of validate: new fields and answer as Checked gives them |
| AsmValidate.Validate.FinishLine | app/src/main/java/lab3_integrated/assembler/lab2/Validate.java:49-114 | the last part of validate: new fields and answer as Finished gives them |
| AsmValidate.Validate.DoesFileContainsOrigAndEnd | app/src/main/java/lab3_integrated/assembler/lab2/Validate.java:568-570 | true exactly when two entries, each ORIG or END, were recorded |
| Pass2Words.Hex4Word | app/src/main/java/lab3_integrated/assembler/Passes/Pass2.java:1820-1829 | for a 16-bit value the padded upper-case toHexString is the four-digit object-file word |
| Pass2Words.AdvanceMovesOn | app/src/main/java/lab3_integrated/assembler/Passes/Pass2.java:1820-1829 | for a 16-bit LC and size, the wrapped int addition and remainder is counting on modulo 2^16 |
| Pass2Words.AddressFromLCSpec | app/src/main/java/lab3_integrated/assembler/Passes/Pass2.java:1820-1829 | addressFromLC writes LC as four upper-case hex digits that parse back to LC, and moves LC on by the size modulo 0x10000, changing nothing else |
| Pass2Words.SymbolClasses | app/src/main/java/lab3_integrated/assembler/Passes/Pass2.java:1771-1811 | absoluteSymbolTable accepts exactly the names isRelativeSymbol calls absolute with class A; a relative name is refused as not absolute, an external one as external, an unknown one by both |
| Pass2Words.ResolveMeaning | app/src/main/java/lab3_integrated/assembler/Passes/Pass2.java:727-805 | a symbol operand resolves exactly when it is external or a known symbol whose value is a number or an external name, and then to that address and relocation kind |
| Pass2Words.SymbolSuffix | app/src/main/java/lab3_integrated/assembler/Passes/Pass2.java:727-805 | the modification suffix is empty outside a relocatable segment, the tag and the name for an external, the tag and the external's name for an alias of one, the tag and the segment name for a relative symbol |
| Pass2Words.LiteralSuffix | app/src/main/java/lab3_integrated/assembler/Passes/Pass2.java:1004-1105 | a literal operand of LD is in the literal table, and in a relocatable segment it is marked `X9` and the segment name |
| Pass2Words.MachineWordLoop | app/src/main/java/lab3_integrated/assembler/Passes/Pass2.java:287-380 | the instructions read through an operand loop get the loop's word, between the opcode and flag bits and the trailing bits |
| Pass2Words.FieldConcat | app/src/main/java/lab3_integrated/assembler/Passes/Pass2.java:637-695 | two binary fields side by side form one, the first shifted left by the second's width |
| Pass2Words.RegisterNumber | app/src/main/java/lab3_integrated/assembler/Passes/Pass2.java:637-695 | a register operand names a register 0..7 and its field is that register's three bits |
| Pass2Words.FieldsOfStep | app/src/main/java/lab3_integrated/assembler/Passes/Pass2.java:637-695 | one more turn of the operand loop appends the next operand's field |
| Pass2Words.FieldsOfThree | app/src/main/java/lab3_integrated/assembler/Passes/Pass2.java:637-695 | the operand loop over three operands is their three fields side by side |
| Pass2Words.RegisterField | app/src/main/java/lab3_integrated/assembler/Passes/Pass2.java:637-695 | a register operand in first or second place of any loop is its three bits |
| Pass2Words.ThirdRegister | app/src/main/java/lab3_integrated/assembler/Passes/Pass2.java:637-695 | a register in third place of ADD/AND is "000" and its three bits |
| Pass2Words.ThirdImmediate | app/src/main/java/lab3_integrated/assembler/Passes/Pass2.java:637-695 | a number or absolute symbol in third place of ADD/AND is "1" and the five low bits of its value, and is refused otherwise |
| Pass2Words.ArithmeticWord | app/src/main/java/lab3_integrated/assembler/Passes/Pass2.java:637-711 | ADD/AND from its three fields is the word opcode(4) DR(3) SR1(3) and the six low bits, after the LC address |
| Pass2Words.LoopWordOf | app/src/main/java/lab3_integrated/assembler/Passes/Pass2.java:637-695 | a loop whose operands all encode is the word of its bits |
| Pass2Words.RegisterNamed | app/src/main/java/lab3_integrated/assembler/Passes/Pass2.java:637-695 | R followed by a register number names that register |
| Pass2Words.IndexToken | app/src/main/java/lab3_integrated/assembler/Passes/Pass2.java:1134-1185 | `#` followed by a register number reads back through parseIndex |
| Pass2Words.ArithmeticRegisters | app/src/main/java/lab3_integrated/assembler/Passes/Pass2.java:637-711 | ADD/AND with three registers is opcode(4) DR(3) SR1(3) 000 SR2(3) |
| Pass2Words.ArithmeticImmediate | app/src/main/java/lab3_integrated/assembler/Passes/Pass2.java:637-711 | ADD/AND with an immediate is opcode(4) DR(3) SR1(3) 1 imm5 |
| Pass2Words.ArithmeticRefused | app/src/main/java/lab3_integrated/assembler/Passes/Pass2.java:637-695 | ADD/AND refuses a third operand that is a relative, external or unknown symbol or an out-of-range immediate |
| Pass2Words.FieldsOfThreeFails | app/src/main/java/lab3_integrated/assembler/Passes/Pass2.java:637-695 | the loop over three operands fails when the third does |
| Pass2Words.PageOk | app/src/main/java/lab3_integrated/assembler/Passes/Pass2.java:276-307 | with LC from addressFromLC, pageRangeAndOffset accepts exactly the targets on the page of LC + 1 |
| Pass2Words.PcWordSpec | app/src/main/java/lab3_integrated/assembler/Passes/Pass2.java:727-805 | a PC-relative word is produced exactly when the target is on the page of LC + 1, and then holds the nine-bit page offset and the modification suffix |
| Pass2Words.PageOffset | app/src/main/java/lab3_integrated/assembler/Passes/Pass2.java:727-805 | the offset for a target on the page of LC + 1 is the nine low bits of the address |
| Pass2Words.IndexField | app/src/main/java/lab3_integrated/assembler/Passes/Pass2.java:1134-1185 | an index operand is the six bits of its value |
| Pass2Words.FieldsOfTwo | app/src/main/java/lab3_integrated/assembler/Passes/Pass2.java:937-991 | the operand loop over two operands is their two fields side by side |
| Pass2Words.IndexedEncoding | app/src/main/java/lab3_integrated/assembler/Passes/Pass2.java:1134-1185 | LDR/STR is opcode(4) DR or SR(3) BaseR(3) index6 |
| Pass2Words.TwoRegisters | app/src/main/java/lab3_integrated/assembler/Passes/Pass2.java:1214-1253 | two register operands in first and second place are their three bits each |
| Pass2Words.JumpRegisterEncoding | app/src/main/java/lab3_integrated/assembler/Passes/Pass2.java:937-991 | JSRR/JMPR is opcode(4) L 0 0 BaseR(3) index6, L being 1 for JSRR and 0 for JMPR |
| Pass2Words.NotEncoding | app/src/main/java/lab3_integrated/assembler/Passes/Pass2.java:1214-1253 | NOT is opcode(4) DR(3) SR(3) and six zero bits |
| Pass2Words.Word433 | app/src/main/java/lab3_integrated/assembler/Passes/Pass2.java:1214-1253 | opcode(4), two register fields and six zero bits make the word of those values |
| Pass2Words.Word48 | app/src/main/java/lab3_integrated/assembler/Passes/Pass2.java:1341-1377 | opcode(4), four zero bits and an eight-bit vector make the word of those values |
| Pass2Words.Word4336 | app/src/main/java/lab3_integrated/assembler/Passes/Pass2.java:637-695 | opcode(4), two three-bit fields and a six-bit field make the word of those values |
| Pass2Words.Word439 | app/src/main/java/lab3_integrated/assembler/Passes/Pass2.java:727-805 | opcode(4), three bits and a page offset make the word of those values |
| Pass2Words.TrapEncoding | app/src/main/java/lab3_integrated/assembler/Passes/Pass2.java:1341-1377 | TRAP is opcode(4) 0000 trapvect8, for a number or an absolute symbol |
| Pass2Words.TrapRefused | app/src/main/java/lab3_integrated/assembler/Passes/Pass2.java:1341-1377 | TRAP refuses a relative, external or unknown symbol as its vector, with absoluteSymbolTable's error |
| Pass2Words.FixedEncoding | app/src/main/java/lab3_integrated/assembler/Passes/Pass2.java:815-832 | DBUG and RET are the opcode and twelve zero bits |
| Pass2Words.LoadEncoding | app/src/main/java/lab3_integrated/assembler/Passes/Pass2.java:1004-1105 | LD, LDI, LEA, ST, STI are opcode(4) DR or SR(3) and the page offset of the address or literal, produced exactly when it is on the page of LC + 1, with the X9 suffix |
| Pass2Words.BranchEncoding | app/src/main/java/lab3_integrated/assembler/Passes/Pass2.java:727-923 | BR (all flag combinations), JSR and JMP are opcode(4), three flag bits and the page offset of the target, produced exactly when it is on the page of LC + 1, with the X9 suffix |

## Left out

- Reading source, object and listing files, writing listing files (`outputToListingFile`, `literalListingFile`, the `.BLKW`/`.STRZ` listing helpers), and `IOException` paths: the model works on lines and produces records as strings.
- `System.exit` and uncaught Java exceptions are modelled as error results. What the object file holds after an error is left unspecified.
- TRAP routines `OUT`, `PUTS`, `OUTN` and `HALT` only print, so their output is left out. The `IN`, `INN` and `RND` routines read the keyboard or a random source, so the value they produce is a parameter.
- `DBUG` and the simulator's trace printers (`outputMachineState` and the like) only print and are left out; the linker's `LinkerApp` driver and the simulator's command-line driver are not part of this model.
- Character classes (`Character.isDigit`, `isAlphabetic`, `isWhitespace`) are modelled on ASCII only.
- `HashMap` iteration order, which decides the order of the literal pool, is a parameter: any sequence that lists each key of the literal table exactly once (`IsOrderOf`).
- Java `static` state of `Pass1` (the literal array and external symbols) is held as fields of the `Pass1` object.
- The machine-op and pseudo-op tables and the symbol and literal tables reach `Pass2` as one environment value `Env`.
- Linker sums of load addresses and segment sizes are unbounded integers; the source's `int` arithmetic cannot overflow for programs that fit in memory.
- `validateComment` in `Validate.java` is never called and is left out.
- AsmPass2.Pass2.ParseInput: requires an empty object file: the source writes one pass into a freshly opened file and closes it at the end, so a second call on the same object is not modelled.
- AsmPass2.Pass2.LiteralPool: writes the literal pool as one string of records; its failure cases are stated only through the `Assembled` specification.
- AsmPass2.Pass2.AssemblePseudoOpLine: the directives without a loop of their own take the state their record function computes (through `SetState`), so their contracts restate those functions.
- Pass2Records.CharRecordWord, Pass2Records.CharRecordLength and Pass2Records.CharRecordsSlices: require every `.STRZ` character to be at most `0xFFFF` (`Chars16`), because a Java `char` cannot hold a larger value. `Pass2Records.StrzSpec` itself holds for every string.
- StringParser.OpcodeBinaryString: gives the empty string outside the Java `int` range, where the source would not be called.
- Pass2Words: operands beyond those an instruction uses are encoded as the source does, giving a longer word; no contract states the word's length in that case.
- An `X9`/`X16` suffix is written only when the program is relocatable, as the code does; an external reference in an absolute program therefore carries no suffix and is not patched by the linker.
- The `.ENT` record's value is the symbol address with the leading `x` removed, as the code writes it, not a three-digit hex field.
- LoadEndRecordContent (`SimLoader.Loader.LoadEndRecordContent`): follows the corrected behaviour of the `Loader.java:165-168` Findings row. It reads every four-hex-digit start address, where the source's `Short.parseShort` throws on `8000`-`FFFF`.
- LoadRecord (`SimLoader.Loader.LoadRecord`): uses the corrected end-record read of that Findings row, so it accepts and applies end records `E8000`-`EFFFF`, which end the source with an exception.
- ParseInputFile (`SimLoader.Loader.ParseInputFile`): uses the same corrected read, so files whose end record names `8000`-`FFFF` load. The source behaviour on them is stated by `SimLoader.EndAddressAsWrittenRejectsUpperHalf`.
- Ret (`SimMachine.Machine.Ret`): follows the corrected behaviour of the `Machine.java:307-310` Findings row. PC becomes R7 read unsigned, where the source copies the sign-extended short. `SimMachine.RetAsWrittenLeavesMemory` states the source behaviour.
- CallAndReturn (`Simulator.CallAndReturn`): states the return to the saved PC for the corrected `RET`. With the source's signed read it fails for a saved PC of `0x8000` or more.
- LoopCount (`Simulator.LoopCount`): follows the corrected behaviour of the `Simulator.java:372-379` Findings row for the empty answer only: it gives 1000 where the source throws. Every other answer, including a digit string beyond the int range, is treated as in the source.
- No concrete worked examples of whole programs are proved: evaluating long string literals through the hex and split functions is too costly for the verifier.

## Findings

| source | as written | input that shows it | evidently intended | confidence | as-written member | corrected member |
|---|---|---|---|---|---|---|
| app/src/main/java/lab3_integrated/simulator/machine/Machine.java:307-310 | `RET` sets PC to R7, a sign-extended `short` | `JSR` executed at PC `0x9000` saves `0x9001` in R7 as a negative short; `RET` then gives a negative PC and a negative memory page | PC becomes R7 read as an unsigned 16-bit address | not executed | SimMachine.RetAsWrittenLeavesMemory | SimMachine.RetReturnsToSavedPc |
| app/src/main/java/lab3_integrated/simulator/loader/Loader.java:165-168 | the end record's address is read with `Short.parseShort(hex, 16)` | `E8000`: `8000` is above `Short.MAX_VALUE`, so parsing throws | any four-hex-digit address is accepted | not executed | SimLoader.EndAddressAsWrittenRejectsUpperHalf | SimLoader.EndAddressRoundTrip |
| app/src/main/java/lab3_integrated/simulator/simulator/Simulator.java:372-379 | `isNum("")` is true, so an empty loop-count answer reaches `Integer.parseInt("")` | an empty line typed as the loop count | an empty answer takes the default of 1000 | not executed | Simulator.LoopCountAsWrittenFails | Simulator.LoopCountOfNumber |
