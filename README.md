# x64dbg MCP plugin core, modelled in Dafny

The plugin exposes x64dbg's debugger to MCP clients as a set of commands. Its core
logic lives in `DotNetPlugin.Impl/Plugin.Commands.cs` and in the managed wrappers of
`DotNetPlugin.Impl/NativeBindings/SDK/Bridge.Dbg.cs`:

- it rebuilds the loaded modules from the page map;
- it walks the stack through saved frame pointers and annotates each frame with
  module, label and comment;
- it disassembles linearly from an address or over a module, attaching labels and
  inline strings;
- it labels memory that matches a byte pattern, and parses byte lists and addresses
  for writes and NOP patches;
- it guards the native memory calls and decodes the engine's fixed text buffers.

The debugger engine sits behind the native calls and is modelled as an oracle
(`Engine`):

- memory is a partial map from address to byte, and a read or write of a range
  fails when any byte of it is unmapped;
- labels and comments are two maps from address to text;
- the module lookup and the one-instruction decoder (`DbgDisasmFastAt`) are
  functions;
- the calls that change state (`DbgSetLabelAt`, `DbgSetCommentAt`, `DbgMemWrite`)
  are methods of the `Engine.Debugger` class.

C# `nuint` arithmetic is unchecked and is modelled modulo 2^64 (`Prelude.Wrap`).
A thrown exception is an explicit error value (`None`, `DisasmError`, `Threw`,
`Aborted`), placed where the source's `catch` puts it.

Modules, one per component: `Prelude` (bytes, words, memory, hex digits), `Engine`,
`Text` (the .NET string and number parsing the commands use), `Bridge`,
`MemoryAccess`, `BytePatterns`, `ModuleMap`, `StackWalk`, `Annotation` and
`Disassembly`.

The loops of the source are methods with loop invariants, proved equal to
specification functions. The properties are proved about those functions:

- Module reconstruction keeps exactly one module per `MEM_IMAGE` allocation base,
  sorted ascending by base. Each module's name, path and size are as the grouping
  and min/max loop define them. The `Module@0x…` fallback is unreachable, because
  the path starts as "Unknown Module".
- The frame-pointer walk:
  - is empty when `rbp` is 0 or below `rsp`, and returns at most `maxFrames` frames;
  - starts at `rbp`, with frame addresses strictly increasing and at least `rsp`;
  - has non-zero return addresses, each read from `[frame + 8]`;
  - stops only for a stated reason;
  - always reports a frame size of 0, since the source's size expression can only
    be non-zero when the frame pointer did not increase, which the walk's
    validation rules out.
- The disassembly sweep:
  - advances one byte and counts nothing on an undecodable byte;
  - never lists more than 5000 instructions, and always ends with at least one
    trailer;
  - lists exactly the bytes and text the decoder reports;
  - fails as a whole when an instruction's bytes cannot be read.

  The module dump keeps every line it wrote, even when it is cut short.
- The inline-string probe is characterised exactly. Bytes from 0x80 up are shown as
  `?` and pass the printable filter (this is what `Encoding.ASCII` does).
- Each frame's annotation is the module, label and comment of a successful combined
  `DbgAddrInfoGet` query. When that query fails, a successful module-only retry
  shows the module alone. Under the bridge's documented success rule that retry
  can never succeed, so the frame shows "Lookup Failed".

## Model

| member | source | states |
|---|---|---|
| Bridge.DecodeBounded | DotNetPlugin.Impl/NativeBindings/SDK/Bridge.Dbg.cs:29 | decoded text stops at the first NUL or at the capacity, one character per byte |
| Bridge.FillThenDecode | DotNetPlugin.Impl/NativeBindings/SDK/Bridge.Dbg.cs:25-53 | a buffer the engine filled decodes to the stored text, cut to capacity minus one |
| Bridge.DbgGetCommentAt | DotNetPlugin.Impl/NativeBindings/SDK/Bridge.Dbg.cs:25-31 | text present iff a comment exists; shorter than MAX_COMMENT_SIZE |
| Bridge.DbgGetLabelAt | DotNetPlugin.Impl/NativeBindings/SDK/Bridge.Dbg.cs:36-42 | text present iff a label exists; shorter than MAX_LABEL_SIZE |
| Bridge.DbgGetModuleAt | DotNetPlugin.Impl/NativeBindings/SDK/Bridge.Dbg.cs:47-53 | text present iff the engine knows a module there; shorter than MAX_MODULE_SIZE |
| Bridge.LabelRoundTrip | DotNetPlugin.Impl/NativeBindings/SDK/Bridge.Dbg.cs:36-42 | a stored label comes back whole, or cut to 255 characters |
| Bridge.CommentRoundTrip | DotNetPlugin.Impl/NativeBindings/SDK/Bridge.Dbg.cs:25-31 | a stored comment comes back whole, or cut to 511 characters |
| Bridge.ModuleRoundTrip | DotNetPlugin.Impl/NativeBindings/SDK/Bridge.Dbg.cs:47-53 | a module name comes back whole, or cut to 255 characters |
| Bridge.ReadGuardWithinBytes | DotNetPlugin.Impl/NativeBindings/SDK/Bridge.Dbg.cs:157-197 | the read guard (element count) admits no request that the write guard (byte count) refuses; for byte arrays the two agree |
| Bridge.DbgMemRead | DotNetPlugin.Impl/NativeBindings/SDK/Bridge.Dbg.cs:157-165 | refused for a null buffer or size above Length; otherwise succeeds iff the range is mapped and then holds the memory in its first size elements; a failure leaves the buffer unchanged |
| Bridge.DbgMemReadStruct | DotNetPlugin.Impl/NativeBindings/SDK/Bridge.Dbg.cs:167-182 | refused when size exceeds the struct; a failed native read resets the struct to default (zeros); a successful one overlays the bytes read |
| Bridge.DbgMemWrite | DotNetPlugin.Impl/NativeBindings/SDK/Bridge.Dbg.cs:188-197 | refused for a null buffer or size above the byte length; otherwise writes the first size bytes iff the range is mapped, leaving the state unchanged otherwise |
| Bridge.DbgMemWriteStruct | DotNetPlugin.Impl/NativeBindings/SDK/Bridge.Dbg.cs:199-213 | refused when size exceeds the struct; otherwise writes its first size bytes iff mapped |
| Bridge.ToInt32 | DotNetPlugin.Impl/NativeBindings/SDK/Bridge.Dbg.cs:488 | the `(int)` cast keeps the low 32 bits as a signed value |
| Bridge.References | DotNetPlugin.Impl/NativeBindings/SDK/Bridge.Dbg.cs:481-496 | empty for a null pointer or refcount 0; otherwise exactly the first `(int)refcount` native records in order, or an exception when that count is negative |
| Bridge.ReferencesCount | DotNetPlugin.Impl/NativeBindings/SDK/Bridge.Dbg.cs:488-489 | counts below 2^31 are kept; larger ones are truncated to 32 bits and may become negative or zero |
| Bridge.InstructionText.constructor | DotNetPlugin.Impl/NativeBindings/SDK/Bridge.Dbg.cs:408-419 | a fresh zeroed buffer of MAX_MNEMONIC_SIZE * 4 bytes |
| Bridge.InstructionText.Instruction | DotNetPlugin.Impl/NativeBindings/SDK/Bridge.Dbg.cs:422-426 | the getter reads only within the buffer, up to the first NUL |
| Bridge.InstructionText.SetInstruction | DotNetPlugin.Impl/NativeBindings/SDK/Bridge.Dbg.cs:427-431 | the setter writes only within the buffer: at most 255 characters and a NUL, later bytes unchanged |
| Bridge.InstructionRoundTrip | DotNetPlugin.Impl/NativeBindings/SDK/Bridge.Dbg.cs:419-432 | setting then getting the text gives it back, cut to 255 characters |
| Engine.Debugger.SetLabelAt | DotNetPlugin.Impl/NativeBindings/SDK/Bridge.Dbg.cs:80 | the label map gains the text at the address; nothing else changes |
| Engine.Debugger.SetCommentAt | DotNetPlugin.Impl/NativeBindings/SDK/Bridge.Dbg.cs:77 | the comment map gains the text at the address; nothing else changes |
| Engine.Debugger.MemWrite | DotNetPlugin.Impl/NativeBindings/SDK/Bridge.Dbg.cs:186 | all bytes are written when the range is mapped, none otherwise |
| MemoryAccess.ReadMemory | DotNetPlugin.Impl/Plugin.Commands.cs:532-538 | `null` exactly when some byte of the range is unmapped; otherwise the bytes there |
| MemoryAccess.WriteMemory | DotNetPlugin.Impl/Plugin.Commands.cs:586-589 | writes `(uint)data.Length` bytes iff mapped, reporting success accordingly |
| MemoryAccess.AddressRoundTrip | DotNetPlugin.Impl/Plugin.Commands.cs:665 | "0x" plus sixteen hex digits parses back to the address |
| MemoryAccess.UpperCaseMarkerRejected | DotNetPlugin.Impl/Plugin.Commands.cs:665 | an address written with "0X" is rejected |
| MemoryAccess.ParseByteTokens | DotNetPlugin.Impl/Plugin.Commands.cs:672-677 | the list parses iff every token does, element by element |
| MemoryAccess.ByteStringTokens | DotNetPlugin.Impl/Plugin.Commands.cs:671 | splitting on space and comma keeps no empty pieces |
| MemoryAccess.ByteTokenRoundTrip | DotNetPlugin.Impl/Plugin.Commands.cs:672-677 | an X2 pair parses back to its byte |
| MemoryAccess.ByteStringRoundTrip | DotNetPlugin.Impl/Plugin.Commands.cs:671-677 | space-separated X2 pairs parse back to the bytes |
| MemoryAccess.PlanWrite | DotNetPlugin.Impl/Plugin.Commands.cs:661-680 | the write goes ahead iff the byte string is not blank, the address parses, and the bytes parse and are not empty; a refusal never reports a write |
| MemoryAccess.WriteMemToAddress | DotNetPlugin.Impl/Plugin.Commands.cs:657-698 | refusals change nothing; otherwise the bytes are written iff the range is mapped, and a failure shows the address cut to 32 bits |
| MemoryAccess.PlanWriteRoundTrip | DotNetPlugin.Impl/Plugin.Commands.cs:661-680 | a documented address and byte list are accepted with exactly those values |
| MemoryAccess.PatchWithNops | DotNetPlugin.Impl/Plugin.Commands.cs:741-765 | a bad address returns false; a negative count throws; otherwise the sled is written iff mapped, with success reported |
| MemoryAccess.NopPatchEffect | DotNetPlugin.Impl/Plugin.Commands.cs:752-753 | after the patch the range is 0x90 and every other byte is unchanged |
| BytePatterns.ParseBytePattern | DotNetPlugin.Impl/Plugin.Commands.cs:780-783 | one byte per hyphen-separated piece when all convert |
| BytePatterns.ConvertPieces | DotNetPlugin.Impl/Plugin.Commands.cs:782 | succeeds iff every piece converts, element by element |
| BytePatterns.BytePatternRoundTrip | DotNetPlugin.Impl/Plugin.Commands.cs:780-783 | the `BitConverter.ToString` form of non-empty bytes parses back to them |
| BytePatterns.EmptyPatternRejected | DotNetPlugin.Impl/Plugin.Commands.cs:782 | the empty text does not parse |
| BytePatterns.Annotate | DotNetPlugin.Impl/Plugin.Commands.cs:1067-1076 | mode Label sets the label, Comment sets the comment (case-insensitively); any other mode changes nothing |
| BytePatterns.LabelMatchingBytes | DotNetPlugin.Impl/Plugin.Commands.cs:1052-1082 | sets the text only when every pattern byte equals memory; a failed read or mismatch changes nothing |
| BytePatterns.MismatchSetsNothing | DotNetPlugin.Impl/Plugin.Commands.cs:1058-1065 | one differing or unmapped byte means no match |
| BytePatterns.PresentPatternMatches | DotNetPlugin.Impl/Plugin.Commands.cs:1056-1065 | a pattern present in memory always matches |
| BytePatterns.EmptyPatternMatchesAnywhere | DotNetPlugin.Impl/Plugin.Commands.cs:1056-1065 | the empty pattern matches everywhere |
| BytePatterns.SplitLabelArgs | DotNetPlugin.Impl/Plugin.Commands.cs:1004-1030 | defaults "test"/"Label" for two arguments; otherwise the last one is the mode when it is a mode word (and the one before it the text), else the text |
| BytePatterns.ModeAfterSingleArgument | DotNetPlugin.Impl/Plugin.Commands.cs:1011-1024 | three arguments ending in a mode word leave an empty pattern |
| BytePatterns.ArgAddressRoundTrip | DotNetPlugin.Impl/Plugin.Commands.cs:999-1002 | "0x" plus sixteen hex digits parses back to the address |
| BytePatterns.LabelMatchingBytesCommand | DotNetPlugin.Impl/Plugin.Commands.cs:987-1047 | too few arguments, a bad address or a bad byte change nothing; otherwise the matching overload runs on the split arguments |
| ModuleMap.GroupsCharacterized | DotNetPlugin.Impl/Plugin.Commands.cs:1107-1125 | the dictionary's keys are exactly the MEM_IMAGE allocation bases, each holding that base's regions in page order; keys are first-seen and distinct |
| ModuleMap.RegionsAtMembers | DotNetPlugin.Impl/Plugin.Commands.cs:1112-1123 | a region is in a group iff it came from a MEM_IMAGE page with that allocation base |
| ModuleMap.FirstWithBase | DotNetPlugin.Impl/Plugin.Commands.cs:1137 | finds the first region starting at the allocation base, if any |
| ModuleMap.FirstWithInfo | DotNetPlugin.Impl/Plugin.Commands.cs:1145 | finds the first region with non-empty info, if any |
| ModuleMap.ModulePathChoice | DotNetPlugin.Impl/Plugin.Commands.cs:1136-1151 | the path is the main region's info if non-empty, else the first non-empty info, else "Unknown Module"; never empty |
| ModuleMap.FileName | DotNetPlugin.Impl/Plugin.Commands.cs:1154 | the name is the path's suffix after the last separator |
| ModuleMap.FileNameAfterSeparator | DotNetPlugin.Impl/Plugin.Commands.cs:1154 | a directory plus a plain name yields the name |
| ModuleMap.ExtentBounds | DotNetPlugin.Impl/Plugin.Commands.cs:1166-1173 | the minimum base and maximum end bound every region and are attained |
| ModuleMap.ModuleFor | DotNetPlugin.Impl/Plugin.Commands.cs:1130-1179 | the module record carries the allocation base |
| ModuleMap.FallbackUnreachable | DotNetPlugin.Impl/Plugin.Commands.cs:1154-1162 | the name is the file name or else the path, never empty, so the `Module@0x…` fallback never applies |
| ModuleMap.ModuleSizeSpan | DotNetPlugin.Impl/Plugin.Commands.cs:1166-1176 | without overflow the size is maximum end minus minimum base, and the span covers every region |
| ModuleMap.AssembleMembers | DotNetPlugin.Impl/Plugin.Commands.cs:1128-1182 | one record per non-empty group, and every record comes from its group |
| ModuleMap.AssembleDistinct | DotNetPlugin.Impl/Plugin.Commands.cs:1128-1182 | distinct keys give records with distinct bases |
| ModuleMap.InsertByBaseContents | DotNetPlugin.Impl/Plugin.Commands.cs:1185-1189 | insertion adds exactly the record |
| ModuleMap.InsertByBaseKeepsOrder | DotNetPlugin.Impl/Plugin.Commands.cs:1185-1189 | insertion keeps the list strictly ascending by base |
| ModuleMap.SortByBaseCorrect | DotNetPlugin.Impl/Plugin.Commands.cs:1185-1189 | the sort is a permutation, strictly ascending by base |
| ModuleMap.ModulesOfCorrect | DotNetPlugin.Impl/Plugin.Commands.cs:1085-1207 | the bases are exactly the MEM_IMAGE allocation bases, ascending, and each record is built from its base's regions |
| ModuleMap.TwoPageModule | DotNetPlugin.Impl/Plugin.Commands.cs:1085-1207 | a two-page image at b with path C:\app\app.exe gives one module "app.exe" of size 0x2000 |
| ModuleMap.RegionExtent | DotNetPlugin.Impl/Plugin.Commands.cs:1166-1173 | the min/max loop computes the minimum base and maximum end |
| ModuleMap.BuildModule | DotNetPlugin.Impl/Plugin.Commands.cs:1133-1179 | builds exactly the group's module record |
| ModuleMap.GroupPages | DotNetPlugin.Impl/Plugin.Commands.cs:1107-1125 | pass 1 builds exactly the grouping and its key order |
| ModuleMap.AssembleModules | DotNetPlugin.Impl/Plugin.Commands.cs:1128-1182 | pass 2 builds exactly the assembled records |
| ModuleMap.GetAllModulesFromMemMap | DotNetPlugin.Impl/Plugin.Commands.cs:1085-1207 | a failed page-map call gives no modules; otherwise the sorted records |
| StackWalk.ReadWord | DotNetPlugin.Impl/Plugin.Commands.cs:1274-1279 | an 8-byte read as a little-endian word, absent when unmapped |
| StackWalk.ReadFrameWords | DotNetPlugin.Impl/Plugin.Commands.cs:1274-1294 | the two reads of one step succeed, with a non-zero return address, exactly when the step records a frame, and give the words at [rbp+8] and [rbp] |
| StackWalk.GetCallStackFunc | DotNetPlugin.Impl/Plugin.Commands.cs:1253-1323 | the loop returns exactly the walk the specification defines |
| StackWalk.WalkOrder | DotNetPlugin.Impl/Plugin.Commands.cs:1311-1319 | frame addresses strictly increase and stay at least rsp |
| StackWalk.WalkContents | DotNetPlugin.Impl/Plugin.Commands.cs:1274-1312 | each frame's return address is read from [frame+8] and is non-zero; each next frame is the saved pointer |
| StackWalk.WalkStops | DotNetPlugin.Impl/Plugin.Commands.cs:1274-1319 | a walk ending early ended on a failed read, a zero return address or a rejected next pointer |
| StackWalk.WalkExtends | DotNetPlugin.Impl/Plugin.Commands.cs:1271 | a larger budget extends the walk |
| StackWalk.CallStackShape | DotNetPlugin.Impl/Plugin.Commands.cs:1265-1319 | empty for rbp 0 or below rsp; at most maxFrames; starts at rbp; increasing; linked through saved pointers; sizes 0 |
| StackWalk.CallStackStops | DotNetPlugin.Impl/Plugin.Commands.cs:1274-1319 | with frames to spare, the walk stopped for a stated reason |
| StackWalk.CallStackExtends | DotNetPlugin.Impl/Plugin.Commands.cs:1271 | raising maxFrames keeps the earlier frames as a prefix |
| Annotation.StripAutoComment | DotNetPlugin.Impl/Plugin.Commands.cs:1392-1404 | a leading 0x01 mark is removed, other comments are kept |
| Annotation.ResolveFrameAnnotation | DotNetPlugin.Impl/Plugin.Commands.cs:1354-1421 | the block's three strings are the resolved annotation |
| Annotation.GetCallStack | DotNetPlugin.Impl/Plugin.Commands.cs:1336-1421 | "not retrieved" iff the walk is empty; otherwise one row per frame, annotated at its return address |
| Annotation.ZerosAreEmpty | DotNetPlugin.Impl/Plugin.Commands.cs:1372-1374 | a cleared buffer reads as empty text |
| Annotation.FilledText | DotNetPlugin.Impl/Plugin.Commands.cs:1389-1392 | a filled buffer reads back as the stored text, fitted |
| Annotation.AnnotationWhenKnown | DotNetPlugin.Impl/Plugin.Commands.cs:1384-1405 | when the combined query succeeds, the three texts are the module, label and comment the engine knows there (empty where it knows none), the mark stripped |
| Annotation.FallbackShowsModule | DotNetPlugin.Impl/Plugin.Commands.cs:1406-1421 | when the combined query fails and the module-only retry succeeds, the frame shows the known module name (empty if none) with empty label and comment |
| Annotation.FallbackAlwaysFails | DotNetPlugin.Impl/Plugin.Commands.cs:1406-1421 | under the documented success rule (success iff a requested field is known), a failed combined query means the retry fails too, giving "Lookup Failed" |
| Annotation.AutoCommentShown | DotNetPlugin.Impl/Plugin.Commands.cs:1396-1399 | an automatic comment is shown without its mark |
| Disassembly.ProbePointer | DotNetPlugin.Impl/Plugin.Commands.cs:1682-1683 | the probe pointer is the immediate for type 1 and addr for type 2, else none |
| Disassembly.IndexOfZero | DotNetPlugin.Impl/Plugin.Commands.cs:1690 | the first zero byte, or -1 when there is none |
| Disassembly.ProbeString | DotNetPlugin.Impl/Plugin.Commands.cs:1685-1704 | the probe computes exactly the inline string; a failed read gives none |
| Disassembly.InlineStringShape | DotNetPlugin.Impl/Plugin.Commands.cs:1685-1704 | a found string is non-empty, printable, zero-terminated within 64 mapped bytes, and is the decoding of the bytes at the pointer |
| Disassembly.InlineStringFound | DotNetPlugin.Impl/Plugin.Commands.cs:1685-1704 | printable text followed by a zero byte is always found |
| Disassembly.HighByteShownAsQuestionMark | DotNetPlugin.Impl/Plugin.Commands.cs:1693-1694 | non-ASCII bytes pass the filter as '?' |
| Disassembly.InstructionLinesAppend | DotNetPlugin.Impl/Plugin.Commands.cs:1706-1710 | instruction lines of a concatenation add up |
| Disassembly.Step | DotNetPlugin.Impl/Plugin.Commands.cs:1663-1714 | every successful step increases bytesRead |
| Disassembly.DisasmIteration | DotNetPlugin.Impl/Plugin.Commands.cs:1663-1714 | one pass of the loop body computes exactly one step of the specified sweep |
| Disassembly.ReadDismAtAddress | DotNetPlugin.Impl/Plugin.Commands.cs:1645-1729 | the loop produces exactly the specified listing or error |
| Disassembly.StepProgress | DotNetPlugin.Impl/Plugin.Commands.cs:1673-1714 | size 0 advances address and bytesRead by one without counting; otherwise both advance by the size and one instruction is counted; the step fails iff the instruction's bytes are unmapped |
| Disassembly.StepLines | DotNetPlugin.Impl/Plugin.Commands.cs:1663-1714 | a step keeps the earlier lines as a prefix and adds exactly one instruction line per instruction counted |
| Disassembly.SweepLimits | DotNetPlugin.Impl/Plugin.Commands.cs:1661-1715 | the sweep ends only at a limit, within 5000 instructions, one line per instruction counted |
| Disassembly.SweepListsDecoded | DotNetPlugin.Impl/Plugin.Commands.cs:1689-1710 | every instruction line holds the decoder's size, bytes, text and inline string at its address |
| Disassembly.ListingShape | DotNetPlugin.Impl/Plugin.Commands.cs:1661-1721 | a listing has at least one trailer; the instruction trailer appears iff 5000 instructions are listed; every line is faithful |
| Disassembly.UnreadableInstructionFails | DotNetPlugin.Impl/Plugin.Commands.cs:1706 | an unreadable instruction turns the command into the error |
| Disassembly.DumpStep | DotNetPlugin.Impl/Plugin.Commands.cs:1832-1899 | a step either counts one instruction or skips one byte |
| Disassembly.DumpIteration | DotNetPlugin.Impl/Plugin.Commands.cs:1830-1899 | one pass of the dump loop body computes exactly one step of the specified dump |
| Disassembly.DumpModuleSweep | DotNetPlugin.Impl/Plugin.Commands.cs:1822-1912 | the loop produces exactly the specified dump |
| Disassembly.DumpStepLines | DotNetPlugin.Impl/Plugin.Commands.cs:1832-1899 | a step keeps the lines written so far and adds one instruction line iff it counts one |
| Disassembly.DumpKeepsLines | DotNetPlugin.Impl/Plugin.Commands.cs:1822-1912 | lines written are never lost, even on an exception; at most 10000 instructions; the truncation note appears iff that many are listed |
| Disassembly.DumpReachesEnd | DotNetPlugin.Impl/Plugin.Commands.cs:1828 | a dump neither cut short nor truncated walked to the module's end |
| Text.TrimNumberWhite | DotNetPlugin.Impl/Plugin.Commands.cs:665 | the result neither starts nor ends with number white space, and a text that does neither is kept whole |
| Text.TrimNumberWhiteSlice | DotNetPlugin.Impl/Plugin.Commands.cs:665 | the result is a slice of the text with only number white space before and after it, so together with TrimNumberWhite exactly the leading and trailing white space is removed |
| Text.RemoveHexMarkers | DotNetPlugin.Impl/Plugin.Commands.cs:665 | removing "0x" never lengthens the text and leaves texts without 'x' unchanged |
| Text.Split | DotNetPlugin.Impl/Plugin.Commands.cs:782 | at least one piece, none containing a separator |
| Text.SplitJoin | DotNetPlugin.Impl/Plugin.Commands.cs:671 | splitting a join on the separator gives the pieces back |
| Text.NonEmpty | DotNetPlugin.Impl/Plugin.Commands.cs:671 | no kept entry is empty, a list without empty entries is kept whole, and one entry is dropped exactly when it is empty |
| Text.NonEmptyAppend | DotNetPlugin.Impl/Plugin.Commands.cs:671 | removing empty entries distributes over concatenation, so it is the in-order filter of the non-empty entries |
| Text.HexByte | DotNetPlugin.Impl/Plugin.Commands.cs:687 | two upper-case hex digits with the byte's value |
| Text.ParseHexFixed | DotNetPlugin.Impl/Plugin.Commands.cs:665 | sixteen X digits parse back to the value |

## Left out

- The native calls themselves (`DbgMemMap`, `DbgDisasmFastAt`, `DbgAddrInfoGet`, `DbgValFromString`, `DbgSetLabelAt`, …) are oracle functions and `Engine.Debugger` methods. Their behaviour is assumed:
  - the success flag of `DbgAddrInfoGet` is an input of the model (`Snapshot.addrInfoOk`); a successful query fills exactly the requested fields the engine knows. The rule "success iff a requested field is known" is only a hypothesis of `Annotation.FallbackAlwaysFails`;
  - the label and comment setters always succeed;
  - the text buffers come back truncated and NUL-terminated.
- `MAX_LABEL_SIZE`, `MAX_COMMENT_SIZE` and `MAX_MODULE_SIZE` (256, 512, 256) and `MAX_MNEMONIC_SIZE` (64) are taken from the x64dbg SDK headers, which are not part of this model.
- Text encoding:
  - UTF-8 and ANSI decoding are modelled as one character per byte;
  - characters above 0xFF are stored as '?';
  - there is no Unicode case folding (only ASCII letters compare ignoring case).
- Number parsing:
  - `Convert.ToUInt64` and `ulong.TryParse` are modelled for unsigned digit strings;
  - signs, culture-specific white space and overflow messages are not modelled.
- `ModuleMap.FileName`: `Path.GetFileName` is modelled as the suffix after the last `\`, `/` or `:`. Its exception on invalid path characters is not modelled.
- `ModuleMap.SortByBaseCorrect`: `List.Sort` is modelled as a pure insertion sort. Bases are distinct, so the order it produces is the same. Dictionary enumeration order is modelled as first-insertion order.
- Only byte arrays are modelled for the generic `DbgMemRead<T>`/`DbgMemWrite<T>`. The element size appears as a parameter of the guards.
- The segment argument of `DbgGetLabelAt` is not modelled.
- `BridgeFree` of the page map is not modelled; the source does not call it either.
- Only x64 is modelled: `nuint` is 64 bits. The `#if AMD64` layouts, struct packing and 32-bit builds are out.
- All report formatting is not modelled; the model yields structured records instead. This covers:
  - column padding, `ToPtrString`, `X16`, `BitConverter.ToString` in listings;
  - the order of the inline-string comment within a line;
  - console messages.
- In `DumpModuleToFile` only the disassembly loop is modelled. Left out are:
  - the lookup of the module containing `cip` (`Module.InfoFromAddr`) and its early return when that fails;
  - the register dump;
  - the hard-coded seven-byte NOP patch at 0x14000140B;
  - `StreamWriter` I/O and its error handlers.
- The `PatchWithNops(string[] args)` overload is not modelled (argument indexing and `Convert.ToInt32`).
- `Disassembly.ReadDismAtAddress`:
  - `bytesRead` is a C# `int` and could overflow for huge byte counts; the model's counter is unbounded;
  - instruction sizes are assumed non-negative and below 2^31, as the decoder reports them.
- `Disassembly.DumpReachesEnd` states only that some cursor at or past the end is reached, not how many bytes were skipped.
- Null string arguments (a `NullReferenceException` inside the `try`) are not modelled.
- Bridge.DbgMemRead: when the native read itself fails, the buffer is assumed to be left unchanged. The x64dbg bridge's `DbgMemRead` is not part of this model and may clear it; only the guard refusals are promised by the wrapper itself.
- BytePatterns.EmptyPatternMatchesAnywhere and MemoryAccess.PatchWithNops: a zero-length range counts as mapped everywhere, so a zero-length read or write succeeds. In C#, `fixed` on an empty array passes a null pointer, and what the native call then does is not part of this model.
- Bridge.DecodeBounded, Bridge.StoreText and Bridge.InstructionText.SetInstruction: `MarshalToStringUTF8` and `MarshalToPtrUTF8` are not part of this model. Decoding is assumed to stop at the first NUL within the buffer's capacity. Storing is assumed to keep at most capacity - 1 bytes, add a NUL, and leave later bytes alone.
- The `"N/A"` defaults of the annotation block are never shown. The native buffers are never null, so `PtrToStringAnsi` never returns null.
