# Project64 debugger cores in Dafny

This project models five self-contained pieces of the Project64 debugger and scripting interface. The model is pure and deterministic. Memory, opcode tables and handler routines are parameters of the model.

- **The display-list parser** (`CDisplayListParser`, `CHleDmemState`):
  - segmented-to-physical and segmented-to-virtual address translation;
  - microcode fingerprinting: a wrapping sum of 768 words, then a first-match registry lookup;
  - `Reset`, `StepDecode`, `Run` and the state log;
  - opcode dispatch through the global table first and the microcode's own table second;
  - texel conversion for the four supported image format and size pairs.

  Modules: `Segments` (segments.dfy), `Microcode` (microcode.dfy), `DisplayList` (displaylist.dfy) and `Texels` (texels.dfy).
- **The Fast3D walker of the scripting helpers** (`DLParser.prototype.parseF3D` in dlutil.js), restricted to its integer state:
  - the list address;
  - the sixteen segment bases;
  - the jump stack;
  - the matrix-stack index;
  - the done flag.

  Module `F3DWalker` (f3d.dfy). It shares the segment arithmetic with the parser, and one lemma cross-checks the two translations.
- **The symbol-file reader** (`CDebugSymbols::LoadGameSymbols`, `GetTypeNumber`, `GetSymbolEntryById`). Module `Symbols` (symbols.dfy). The C library routines it relies on live in `CLib` (clib.dfy):
  - `strtok`, with its skipping of empty tokens;
  - `strtoull` in base 16;
  - `%X` formatting.
- **The scripting register objects** (`gpr`, `ugpr`, `cop0` in ScriptAPI_registers.cpp). Module `Registers` (registers.dfy):
  - the name tables `GPRIndex`, `FPRIndex` and `COP0RegPtr`;
  - GPR get and set over a register file of 32 two-half registers plus HI and LO;
  - COP0 get and set by name.

  The script engine's values and integer coercions are in `Duktape` (duktape.dfy).
- **`Number.prototype.hex`** (ScriptAPI_Number_hex.cpp). Module `HexFormat` (hexformat.dfy). It formats with `snprintf(buf, 64, "%0*X", length, value)`.

Shared definitions are in `Common` (common.dfy): the `u32` and `u8` ranges, `Option`, and the 32-bit wrap `Wrap32`.

## Modelling decisions

- **Words.** A 32-bit word is an `int` in `0 .. 2^32-1`. Bit fields are written with `/` and `%` by powers of two. C unsigned wrap-around is written out as `% 2^32`.
- **Display-list memory.** The parser reads emulated memory through a function from a physical address to a word, passed as a parameter.
  - `Reset` fingerprints the microcode from the RAM snapshot it copies (`snapshot`).
  - `StepDecode` and `GetRawCommand` read live memory (`mem`). They call `g_MMU->LW_PAddr`, not the snapshot.
- **`Reset` and the decoded-command list.** `Reset` clears the state log but not the decoded-command list (DisplayListParser.cpp:51-91). The model follows the code, so `DisplayList.Reset` keeps `decodedCommands`.
- **RGBA16 scaling.** A 5-bit channel is multiplied by `255.0f/32.0f` and converted to `uint8_t`. That is `floor(c * 255 / 32)`, so full red (31) becomes 247, not 255. `Texels.Rgba16FullRed` states this.
- **Opcode tables and handlers.** Opcode tables and the microcode registry are sequences of records. Decode and execute routines are handler ids, resolved by a `Callbacks` record of two functions supplied by the caller.
- **dlutil.js numbers.** JavaScript numbers in dlutil.js are integers that never wrap, except where they are stored into a `Uint32Array`.
  - A typed-array store at a fractional or out-of-range index is ignored.
  - Every exception the walker can raise is the single outcome `Fault`: a Buffer `readUInt32BE` or `readInt16BE` read out of range, or a property of `undefined`.
- **Duktape coercions.** The register and hex functions use `duk_get_int`, `duk_get_uint` and `duk_to_uint`. These clamp to the C range (`Duktape.ToInt`, `Duktape.ToUint`) rather than reduce modulo 2^32.
  - So `(-1).hex()` is "00000000" and `(2**32).hex(2)` is "FFFFFFFF".
  - A reading of ScriptAPI_Number_hex.cpp:27 as ECMAScript ToUint32 would give "FFFFFFFF" and "00" instead.
  - Only integral numbers are modelled.
- **Negative hex widths.** A `length` of 2^31 or more is passed to `%0*X` as a negative `int`. The C standard reads a negative `*` width as the `-` flag with the absolute value as the width, so the digits are left-justified and padded with spaces. `HexFormat.LeftJustifiedField` states this.
- **Symbol-file name refusal.** `LoadGameSymbols` refuses an empty name with `ERR_INVALID_ADDR`, not `ERR_INVALID_NAME` (Debugger-Symbols.cpp:130-138). `strtok` never returns an empty token, so this refusal cannot fire. The model keeps both facts.
- **Termination.** `Run` and `parseF3D` loop until a done flag is set. The model gives them a `fuel` bound and reports when the fuel runs out.

## Model

| member | source | states |
|---|---|---|
| Segments.SegmentedToVirtual | Source/Project64/UserInterface/Debugger/Util/DisplayListParser.cpp:16-19 | the virtual address always has bit 31 set, and its low 31 bits are those of the physical address |
| Segments.FieldsOfLow28 | Source/Project64/UserInterface/Debugger/Util/DisplayListParser.cpp:9-14 | the segment number and the offset depend only on the low 28 bits of the segmented address |
| Segments.PhysicalAddressFrame | Source/Project64/UserInterface/Debugger/Util/DisplayListParser.cpp:9-14 | the physical address minus the segment base is the 24-bit offset modulo 2^32; addresses that agree in their low 28 bits translate alike; changing any other segment slot leaves the translation unchanged |
| Microcode.ComputeChecksum | Source/Project64/UserInterface/Debugger/Util/DisplayListParser.cpp:76-81 | the loop's wrapping 32-bit sum equals the mathematical sum of the 768 words reduced modulo 2^32 |
| Microcode.ChecksumSensitivity | Source/Project64/UserInterface/Debugger/Util/DisplayListParser.cpp:76-81 | when two memories differ in at most one of the 768 words, their fingerprints are equal exactly when that word is equal |
| Microcode.GetUCodeVersionInfoFinds | Source/Project64/UserInterface/Debugger/Util/DisplayListParser.cpp:155-166 | the registry lookup returns the first entry with the checksum, and nothing exactly when no entry has it |
| Microcode.LookupCommandFinds | Source/Project64/UserInterface/Debugger/Util/DisplayListParser.cpp:214-225 | the command lookup returns the first entry with the opcode byte, and nothing exactly when no entry has it |
| Microcode.LookupNameFinds | Source/Project64/UserInterface/Debugger/Util/DisplayListParser.cpp:227-238 | the name lookup returns the name of the first entry with the value, and nothing exactly when no entry has it |
| DisplayList.Reset | Source/Project64/UserInterface/Debugger/Util/DisplayListParser.cpp:51-91 | after a reset: the end address is start plus size modulo 2^32; the state is zero apart from the start address; the log and the counter are empty; the decoded list is kept; 16 vertex slots; the checksum is the wrapped word sum; an unmatched checksum gives the unknown microcode with no table; otherwise the first matching registry entry's version, name and table |
| DisplayList.DispatchFinds | Source/Project64/UserInterface/Debugger/Util/DisplayListParser.cpp:117-144 | an opcode found in the global table resolves to its first global entry, whatever the microcode table holds; otherwise to the first entry of the microcode table; nothing exactly when neither table has it |
| DisplayList.StepDecode | Source/Project64/UserInterface/Debugger/Util/DisplayListParser.cpp:151-152 | every step counts exactly one command |
| DisplayList.StepDecodeRecords | Source/Project64/UserInterface/Debugger/Util/DisplayListParser.cpp:102-153 | a step appends exactly one state to the log and one record to the decoded list, keeping both prefixes; the logged state holds the pre-advance address, the freshly read command words and the old segments, stack index and done flag; nothing else in the parser changes; with unknown microcode, reaching the end address sets done |
| DisplayList.UnknownOpcodeIsSkipped | Source/Project64/UserInterface/Debugger/Util/DisplayListParser.cpp:117-144 | an opcode in neither table yields the record "?" / "?" and leaves the state as the fetch and the advance made it |
| DisplayList.DecodeThenExecute | Source/Project64/UserInterface/Debugger/Util/DisplayListParser.cpp:129-143 | for an entry with a decode routine, the routine gets the advanced state and a record already carrying the entry's name; the record it returns is the one logged, and the execute routine runs on the state it returns |
| DisplayList.ExecuteSeesAdvancedState | Source/Project64/UserInterface/Debugger/Util/DisplayListParser.cpp:109-141 | the execute routine receives the state with the new command and the address already advanced by 8 |
| DisplayList.StepAdvancesAddress | Source/Project64/UserInterface/Debugger/Util/DisplayListParser.cpp:109-149 | when the routines keep the address and the flag, the address advances by 8 modulo 2^32, and done is set exactly when it was already set or the microcode is unknown and the new address is at or past the end |
| DisplayList.StepNLogs | Source/Project64/UserInterface/Debugger/Util/DisplayListParser.cpp:102-153 | n steps append exactly n states and n records, keep the earlier entries, add n to the counter, and change nothing else |
| DisplayList.GetLoggedState | Source/Project64/UserInterface/Debugger/Util/DisplayListParser.cpp:41-49 | the lookup is null exactly when the index is at or past the log's size; otherwise it is the state at that index |
| DisplayList.FirstLoggedState | Source/Project64/UserInterface/Debugger/Util/DisplayListParser.cpp:104-110 | the first state logged by a run of steps is the parser's state before them, holding the command it is about to run |
| DisplayList.LoggedStateIsPreStepState | Source/Project64/UserInterface/Debugger/Util/DisplayListParser.cpp:41-49 | after n steps, logged state i is the state from before step i, holding that step's command |
| DisplayList.Run | Source/Project64/UserInterface/Debugger/Util/DisplayListParser.cpp:93-99 | a run executes at most `fuel` commands and stops only when done is set or the fuel is used up |
| DisplayList.RunIsSteps | Source/Project64/UserInterface/Debugger/Util/DisplayListParser.cpp:93-99 | a run is exactly the k-fold step, and no intermediate state before the last step was done |
| DisplayList.UnknownMicrocodeStopsAtEnd | Source/Project64/UserInterface/Debugger/Util/DisplayListParser.cpp:51-99 | after a reset that finds no registry entry, when the decode and execute routines move neither the address nor the done flag and the list end plus one command stays below 2^32 (no wrap-around), a run stops by itself after exactly ceil(size / 8) commands (at least one), having logged that many states and records |
| Texels.UnpackPack | Source/Project64/UserInterface/Debugger/Util/DisplayListParser.cpp:251 | the `A<<24 \| R<<16 \| G<<8 \| B` packing is lossless: the channels unpack to what was packed |
| Texels.ConvertTexelChannels | Source/Project64/UserInterface/Debugger/Util/DisplayListParser.cpp:242-281 | each converted pixel has the channels its format prescribes: RGBA5551 scales colour by 255/32 with alpha 0 or 255; IA88 copies intensity; IA44 widens nibbles by 0x11; I8 is opaque |
| Texels.ConvertImage | Source/Project64/UserInterface/Debugger/Util/DisplayListParser.cpp:240-288 | success exactly for the four supported pairs; on failure the destination is untouched; pixels past `numTexels` are never written; each converted pixel is read from the swizzled source index and has the prescribed channels |
| Texels.Rgba16FullRed | Source/Project64/UserInterface/Debugger/Util/DisplayListParser.cpp:246-251 | an opaque full-red RGBA16 texel converts to 0xFFF70000, so red 31 becomes 247 |
| Texels.IntensityScenarios | Source/Project64/UserInterface/Debugger/Util/DisplayListParser.cpp:264-286 | I8 0xFF gives opaque white; IA8 0xF0 gives transparent white; an unsupported pair reports failure and leaves the destination as it was |
| F3DWalker.Initial | Scripts/modules/dlutil.js:26-45 | the walk starts at the list address, not done, with every segment and both stack indices zero |
| F3DWalker.ReadU32BE | Scripts/modules/dlutil.js:83-84 | command words are read big-endian: each of the four bytes lands in its own byte of the word, the first byte on top and the fourth at the bottom |
| F3DWalker.VertexOperands | Scripts/modules/dlutil.js:91-93 | a vertex load names 1 to 16 vertices and a slot below 16, at the segment-translated address |
| F3DWalker.Step | Scripts/modules/dlutil.js:83-86 | a fetch outside RAM faults |
| F3DWalker.OtherOpcodesPassThrough | Scripts/modules/dlutil.js:88-190 | an opcode outside the handled set changes nothing but advancing the address by 8 |
| F3DWalker.VertexLoadEffect | Scripts/modules/dlutil.js:90-108 | G_VTX takes the count from bits 20..23 plus one, the slot from bits 16..19 and the address from the segmented `w1`; it faults exactly when the last vertex lies outside RAM, and otherwise only advances the address |
| F3DWalker.MoveWordEffect | Scripts/modules/dlutil.js:185-189 | G_MOVEWORD with index 6 and a whole in-range slot sets that segment to the low 29 bits of `w1`; every other form leaves the segments alone; nothing else changes but the address |
| F3DWalker.DisplayListCallEffect | Scripts/modules/dlutil.js:171-176 | G_DL jumps to the segment-translated `w1`; a branch (push flag 1) changes nothing else; a call stores the already-advanced return address at the stack index, bumps the index and keeps the other slots |
| F3DWalker.PopMatrixEffect | Scripts/modules/dlutil.js:168-170 | G_POPMTX lowers the matrix index by one, without a bound check, and changes nothing else but the address |
| F3DWalker.EndDisplayListEffect | Scripts/modules/dlutil.js:177-184 | G_ENDDL at stack index 0 finishes; above 0 it pops the return address into the list address; popping past the 16-entry stack faults |
| F3DWalker.CallThenReturn | Scripts/modules/dlutil.js:171-184 | a pushing G_DL followed by a G_ENDDL in the callee resumes at the command after the call, at the original stack depth |
| F3DWalker.TranslationAgrees | Scripts/modules/dlutil.js:93 | the script's segment translation agrees with the parser's `SegmentedToPhysical` modulo 2^32, and exactly whenever every segment base is below 2^29 |
| F3DWalker.StepKeepsSegmentsBelow29 | Scripts/modules/dlutil.js:185-189 | every step keeps all segment bases below 2^29 |
| F3DWalker.Walk | Scripts/modules/dlutil.js:81-191 | a walk ends finished, with done set within the fuel; or at a state that faults, before the fuel runs out; or unfinished |
| F3DWalker.ParseTranslationMatchesPhysical | Scripts/modules/dlutil.js:93 | wherever a walk stops, the script's translation equals the parser's translation exactly, without any wrap |
| F3DWalker.CallReturnScenario | Scripts/modules/dlutil.js:171-184 | a list that calls a sub-list and returns finishes in three commands, at address 16 and stack index 0 |
| Symbols.GetTypeNumber | Source/Project64/N64System/Debugger/Debugger-Symbols.cpp:32-43 | the index of the first type with the name, or none exactly when no type has it |
| Symbols.StoreField | Source/Project64/N64System/Debugger/Debugger-Symbols.cpp:105-143 | a token is refused exactly when it is an address that does not parse fully as hex, an unknown type, or an empty name; an unknown type gives the invalid-type code and the other refusals the invalid-address code; an address clears the entry first; each other field updates only its own slot |
| Symbols.ParseFromOutcome | Source/Project64/N64System/Debugger/Debugger-Symbols.cpp:101-180 | from any loop state that satisfies the invariant, the accepted entries grow from the current ones, each accepted entry has a fully parsed address, a known type and a non-empty name, and carries its position as id, and any error reports the line after the last accepted one |
| Symbols.LoadGameSymbols | Source/Project64/N64System/Debugger/Debugger-Symbols.cpp:82-199 | the existing entries stay a prefix; each new entry is accepted with consecutive ids from 0; an error's line number is one more than the count of new entries |
| Symbols.SymbolFileRoundTrip | Source/Project64/N64System/Debugger/Debugger-Symbols.cpp:101-180 | writing writable entries with ids 0.. one per line as `address,type,name[,description]` and loading the file back gives exactly those entries and no error |
| Symbols.BlankLinesNotCounted | Source/Project64/N64System/Debugger/Debugger-Symbols.cpp:170-179 | because strtok skips delimiters, an empty line changes neither the entries nor the reported line numbers |
| Symbols.TypeEndRefused | Source/Project64/N64System/Debugger/Debugger-Symbols.cpp:145-152 | a line that ends right after its type reports missing fields at that line, keeping the entries before it |
| Symbols.MissingNameIsRefused | Source/Project64/N64System/Debugger/Debugger-Symbols.cpp:145-152 | a first line `address,type` followed by a newline fails with missing fields at line 1 and no entries |
| Symbols.BadAddressStopsAtLine | Source/Project64/N64System/Debugger/Debugger-Symbols.cpp:107-118 | after n good lines, an address that does not parse fully stops loading with the invalid-address code at line n+1, keeping the n entries |
| Symbols.DescriptionTakesNextLine | Source/Project64/N64System/Debugger/Debugger-Symbols.cpp:139-142 | a description token is read to the next newline only, skipping leading newlines, so it may contain commas |
| Symbols.TrailingCommaTakesNextLine | Source/Project64/N64System/Debugger/Debugger-Symbols.cpp:139-179 | a line ending in a comma after its name takes the next line as its description |
| Symbols.TrailingCommaAtEndDropsLine | Source/Project64/N64System/Debugger/Debugger-Symbols.cpp:145-168 | a final line ending in a comma after its name, with no description before the end of input, is dropped without an error |
| Symbols.GetSymbolEntryById | Source/Project64/N64System/Debugger/Debugger-Symbols.cpp:210-220 | the first entry with the id, or none exactly when no entry has it |
| Symbols.LookupAfterFreshLoad | Source/Project64/N64System/Debugger/Debugger-Symbols.cpp:210-220 | after a load into an empty list, looking up id i finds the i-th entry |
| CLib.StrToULL | Source/Project64/N64System/Debugger/Debugger-Symbols.cpp:109-112 | `strtoull` in base 16 saturates at ULLONG_MAX; it consumes nothing or ends on a hex digit, and a parse that consumes nothing gives 0 |
| CLib.StrToULLOfFormatHex | Source/Project64/N64System/Debugger/Debugger-Symbols.cpp:109-117 | an address written with `%X` parses back fully, to the same value |
| CLib.StrayCharacterStopsParse | Source/Project64/N64System/Debugger/Debugger-Symbols.cpp:109-117 | a token with any character that cannot be part of a hex number does not parse fully |
| CLib.StrtokScan | Source/Project64/N64System/Debugger/Debugger-Symbols.cpp:99 | `strtok` finds no token exactly when the text is all delimiters; a token holds no delimiter |
| CLib.StrtokReconstructs | Source/Project64/N64System/Debugger/Debugger-Symbols.cpp:170-179 | the text after the skipped leading delimiters is the token, the delimiter that ended it and the rest |
| Registers.IndexOfNameFinds | Source/Project64/UserInterface/Debugger/ScriptAPI/ScriptAPI_registers.cpp:199-208 | the name search returns the first position of the name, or -1 exactly when the name is absent |
| Registers.GprIndexNumbersNames | Source/Project64/UserInterface/Debugger/ScriptAPI/ScriptAPI_registers.cpp:191-209 | GPRIndex gives -1 exactly for names outside the table; otherwise the MIPS o32 register number of the ABI name, derived independently of the table |
| Registers.GprIndexOfTableName | Source/Project64/UserInterface/Debugger/ScriptAPI/ScriptAPI_registers.cpp:191-209 | each of the 32 GPR names resolves to its own position, so the table is a bijection onto 0..31 |
| Registers.FprIndexNumbersNames | Source/Project64/UserInterface/Debugger/ScriptAPI/ScriptAPI_registers.cpp:305-323 | FPRIndex gives -1 exactly for names outside "f0".."f31"; otherwise the number written after the "f" |
| Registers.FprIndexOfTableName | Source/Project64/UserInterface/Debugger/ScriptAPI/ScriptAPI_registers.cpp:305-323 | each of the 32 FPR names resolves to its own position |
| Registers.WithHalf | Source/Project64/UserInterface/Debugger/ScriptAPI/ScriptAPI_registers.cpp:301 | writing one half of a 64-bit register sets that half and keeps the other |
| Registers.LookupCop0Finds | Source/Project64/UserInterface/Debugger/ScriptAPI/ScriptAPI_registers.cpp:406-448 | a name lookup returns the register of the first entry with the name, and null exactly when no entry has it |
| Registers.Cop0RegOfFinds | Source/Project64/UserInterface/Debugger/ScriptAPI/ScriptAPI_registers.cpp:406-448 | COP0RegPtr resolves exactly the 17 listed names, to their first table entry |
| Registers.Cop0RegOfOmitsCause | Source/Project64/UserInterface/Debugger/ScriptAPI/ScriptAPI_registers.cpp:406-448 | no name resolves to CAUSE or FAKE_CAUSE |
| Registers.CauseUnresolved | Source/Project64/UserInterface/Debugger/ScriptAPI/ScriptAPI_registers.cpp:406-448 | the name "cause" resolves to null |
| Registers.GprGet | Source/Project64/UserInterface/Debugger/ScriptAPI/ScriptAPI_registers.cpp:211-250 | without a register context the read fails with the context error; it never fails with the assignment-type error; a numbered target succeeds exactly when its index is in 0..31 |
| Registers.GprSet | Source/Project64/UserInterface/Debugger/ScriptAPI/ScriptAPI_registers.cpp:252-303 | no context gives the context error; a non-number value gives the assignment-type error; a number written to a numbered target succeeds exactly for indices 0..31; a write to register 0 leaves the register file unchanged; a successful write keeps the file well-formed |
| Registers.GprSetErrorOrder | Source/Project64/UserInterface/Debugger/ScriptAPI/ScriptAPI_registers.cpp:256-299 | the context is checked first, then the value's type before the key is inspected, then the index range |
| Registers.GprSetThenGet | Source/Project64/UserInterface/Debugger/ScriptAPI/ScriptAPI_registers.cpp:248-301 | reading back the same key and half after a write returns the coerced value, except register 0, which reads as before |
| Registers.GprSetFrame | Source/Project64/UserInterface/Debugger/ScriptAPI/ScriptAPI_registers.cpp:276-301 | a write changes only the selected half of the selected GPR, HI or LO; every other half and every COP0 register is unchanged |
| Registers.R0WritesIgnored | Source/Project64/UserInterface/Debugger/ScriptAPI/ScriptAPI_registers.cpp:291-294 | writing a number to register 0, by number 0 or by name "r0", succeeds and changes nothing |
| Registers.Cop0Get | Source/Project64/UserInterface/Debugger/ScriptAPI/ScriptAPI_registers.cpp:97-133 | no context gives the context error; the read succeeds exactly for a string key that resolves to a register, and returns that register's value |
| Registers.Cop0Set | Source/Project64/UserInterface/Debugger/ScriptAPI/ScriptAPI_registers.cpp:135-171 | no context gives the context error; a non-string key gives the invalid-register error; then a non-number value gives the assignment-type error; a successful write leaves the GPRs, HI and LO alone; a successful write of a name other than "cause" stores the coerced value in the register the name resolves to and leaves every other COP0 register alone |
| Registers.Cop0SetCause | Source/Project64/UserInterface/Debugger/ScriptAPI/ScriptAPI_registers.cpp:156-161 | writing "cause" sets both CAUSE and FAKE_CAUSE to the value, and no other COP0 register |
| Registers.Cop0SetThenGet | Source/Project64/UserInterface/Debugger/ScriptAPI/ScriptAPI_registers.cpp:135-171 | after writing a named register, reading it back gives the coerced value, and reading any other named register gives what it gave before |
| Duktape.ToUint | Source/Project64/UserInterface/Debugger/ScriptAPI/ScriptAPI_Number_hex.cpp:27 | the unsigned coercion returns the value in 0..2^32-1 nearest to the number: no other value of that range is closer, so a negative number gives 0 and a too-large one 2^32-1 |
| Duktape.ToUintIsOnlyNearest | Source/Project64/UserInterface/Debugger/ScriptAPI/ScriptAPI_Number_hex.cpp:27 | the nearest value is unique: any value of 0..2^32-1 at least as close as all others is the coercion's result, so the coercion is fully described by "nearest" |
| Duktape.ToInt | Source/Project64/UserInterface/Debugger/ScriptAPI/ScriptAPI_registers.cpp:222 | the signed coercion `duk_get_int` returns the C `int` nearest to the number |
| Duktape.ToIntIsOnlyNearest | Source/Project64/UserInterface/Debugger/ScriptAPI/ScriptAPI_registers.cpp:222 | the nearest `int` is unique, so the coercion is fully described by "nearest" |
| HexFormat.AtMostEightDigits | Source/Project64/UserInterface/Debugger/ScriptAPI/ScriptAPI_Number_hex.cpp:26-30 | the coerced value has between one and eight significant hex digits |
| HexFormat.ZeroPaddedField | Source/Project64/UserInterface/Debugger/ScriptAPI/ScriptAPI_Number_hex.cpp:18-30 | for widths below 2^31 the output is as long as the larger of the width and the digit count, capped at 63; it holds only 0-9 and A-F; when not cut, it is zeros followed by the value's digits |
| HexFormat.HexRoundTrip | Source/Project64/UserInterface/Debugger/ScriptAPI/ScriptAPI_Number_hex.cpp:30 | for any width up to 63, the output read back as hex, by value or with `strtoull`, gives the coerced value, and parses fully |
| HexFormat.DefaultWidth | Source/Project64/UserInterface/Debugger/ScriptAPI/ScriptAPI_Number_hex.cpp:17-24 | without an argument the output is the same as with width 8, exactly eight digits long, and reads back as the value |
| HexFormat.WidthIsMinimum | Source/Project64/UserInterface/Debugger/ScriptAPI/ScriptAPI_Number_hex.cpp:30 | a width up to 63 never truncates: the output is as long as the larger of width and digit count, and ends with all the digits |
| HexFormat.LeftJustifiedField | Source/Project64/UserInterface/Debugger/ScriptAPI/ScriptAPI_Number_hex.cpp:22-30 | a width of 2^31 or more is a negative `int`: the digits come first, followed only by spaces, up to `2^32 - width` characters, capped at 63 |
| HexFormat.DefaultScenarios | Source/Project64/UserInterface/Debugger/ScriptAPI/ScriptAPI_Number_hex.cpp:17-30 | 255 prints as "000000FF", and -1 clamps to 0 and prints as "00000000" |
| HexFormat.NarrowScenarios | Source/Project64/UserInterface/Debugger/ScriptAPI/ScriptAPI_Number_hex.cpp:20-30 | 255 at width 0 is "FF"; 2^32 clamps to 0xFFFFFFFF and prints in full at width 2 |

## Left out

- Memory access, the RAM snapshot and file I/O. Memory is modelled as word-reader parameters:
  - the `malloc`/`memcpy` snapshot and `RdramSize` are not modelled, because only the fingerprint reads the snapshot;
  - opening, reading and writing symbol files, directory creation, message boxes and list views are I/O and UI.
- Opcode tables, the microcode registry and the decode/execute routines are declared in headers that are not part of this model. They are parameters, with routines passed as functions.
- DisplayList.Run: the source loops until done with no bound. The model bounds the loop with `fuel` and shows that a run with enough fuel is the step sequence up to the first done.
- F3DWalker.Walk: `parseF3D` loops until done with no bound. The model bounds the walk with `fuel` and reports `Unfinished` when the fuel runs out.
- The floating-point parts of dlutil.js are not modelled:
  - matrix loading and multiplication (G_MTX 0x01 keeps only its index bookkeeping and its RAM bound);
  - vertex transforms;
  - G_TRI1 (0xBF) triangle assembly, which keeps only the check that indices divide by 10;
  - the `performance.now` timing.
- F3DWalker.EndDisplayListEffect: a G_ENDDL with more than 16 entries pushed reads past the 16-entry `Uint32Array` (dlutil.js:179), so the list address becomes `undefined`. The Buffer reads coerce that offset to 0 and the source walk goes on reading from offset 0 until a later G_DL sets a number again. The model stops the walk with `Fault` at that G_ENDDL instead.
- Symbols.GetSymbolEntryById: when no entry has the id, the source loop ends without a `return` (Debugger-Symbols.cpp:210-220), so the result is undefined in C++. The model returns `None` there.
- The interpreter state `DisplayList.HleState` keeps only the fields this parser touches (address, command, segments, stack index, done). The return stack and the other `CHleDmemState` fields are not modelled, so the decode and execute routines passed as parameters cannot carry the state the real routines keep.
- F3DWalker.VertexLoadEffect: only the operand fields and the RAM bound of a vertex load are stated. The loaded vertex coordinates are floating point.
- FPR get and set in ScriptAPI_registers.cpp convert to and from `float` and `double`. Only the `FPRIndex` name table is modelled.
- Registers.Cop0Get: a read of "cause" in `js_cop0_get` (ScriptAPI_registers.cpp:112-124) pushes `FAKE_CAUSE | CAUSE` (line 115) and reads that same value back as argument 2 (line 116), because the getter is registered with two arguments (line 24). So both CAUSE and FAKE_CAUSE become `FAKE_CAUSE | CAUSE`, and `CheckInterrupts` is called. It then fails, because `COP0RegPtr` does not resolve "cause". The model keeps the failure but does not change the register file on reads, so the write is left out.
- Duktape.ToUint: JavaScript numbers are integers here. Fractions, NaN, the infinities and `ToNumber` coercion of non-number `this` values are not modelled.
- Duktape stack manipulation and key types other than numbers and strings are not modelled. Such keys resolve to no register, as `GPRIndex` is never called for them.
- The script engine setup, the render window, the command and DMA-log windows, and the script object bindings are outside the five cores.
