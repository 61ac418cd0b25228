/** The linear disassembly sweeps: `ReadDismAtAddress`, which lists instructions from
    an address until an instruction or byte budget is spent, and the loop of
    `DumpModuleToFile`, which lists a module's range. Both show labels, decode one
    instruction at a time (an undecodable byte is skipped), and attach an inline
    string when an operand points at printable text. */
module Disassembly {
  import opened Prelude
  import opened Engine
  import Bridge
  import MemoryAccess
  import BytePatterns

  const MAX_INSTRUCTIONS: nat := 5000
  const DUMP_MAX_INSTRUCTIONS: nat := 10000

  /** Bytes read behind an operand when looking for a string. */
  const STRING_PROBE_SIZE: nat := 64

  // ---- the inline-string probe ----

  /** The operand that may point at a string: the immediate for a value operand, the
      address for kind 2, none (0) otherwise. */
  function ProbePointer(d: Disassembled): (p: U64)
    ensures p != 0 ==> (d.kind == TYPE_VALUE && p == d.immediate) || (d.kind == TYPE_MEMORY && p == d.addr)
  {
    if d.kind == TYPE_VALUE then d.immediate
    else if d.kind == TYPE_MEMORY then d.addr
    else 0
  }

  /** `Array.IndexOf(data, (byte)0)`: the first zero, or -1. */
  function IndexOfZero(data: seq<Byte>): (r: int)
    ensures -1 <= r < |data|
    ensures r >= 0 ==> data[r] == 0 && forall i :: 0 <= i < r ==> data[i] != 0
    ensures r == -1 ==> forall i :: 0 <= i < |data| ==> data[i] != 0
  {
    if |data| == 0 then -1
    else if data[0] == 0 then 0
    else
      var rest := IndexOfZero(data[1..]);
      if rest == -1 then -1 else rest + 1
  }

  /** `Encoding.ASCII` on one byte: bytes from 0x80 up become '?'. */
  function AsciiChar(b: Byte): char {
    if b < 0x80 then b as char else '?'
  }

  function AsciiDecode(bytes: seq<Byte>): (t: string)
    ensures |t| == |bytes| && forall i :: 0 <= i < |bytes| ==> t[i] == AsciiChar(bytes[i])
  {
    seq(|bytes|, i requires 0 <= i < |bytes| => AsciiChar(bytes[i]))
  }

  predicate IsPrintable(c: char) {
    0x20 <= c as int < 0x7F
  }

  predicate AllPrintable(t: string) {
    forall i :: 0 <= i < |t| ==> IsPrintable(t[i])
  }

  /** The string in a probe buffer: the bytes before the first zero, when there is at
      least one and all decode to printable characters. */
  function StringIn(data: seq<Byte>): Option<string> {
    var len := IndexOfZero(data);
    if len > 0 then
      var decoded := AsciiDecode(data[..len]);
      if AllPrintable(decoded) then Some(decoded) else None
    else None
  }

  /** The inline string for a probe pointer; a failed read gives none. */
  function InlineString(mem: Memory, ptr: U64): Option<string> {
    if ptr == 0 then None
    else
      match Read(mem, ptr, STRING_PROBE_SIZE)
      case None => None
      case Some(data) => StringIn(data)
  }

  /** The probe: `ReadMemory(ptr, 64)`; a `null` buffer makes `Array.IndexOf` throw,
      which the probe swallows. */
  method ProbeString(mem: Memory, ptr: U64) returns (inlineString: Option<string>)
    ensures inlineString == InlineString(mem, ptr)
  {
    inlineString := None;
    if ptr != 0 {
      var strData := MemoryAccess.ReadMemory(mem, ptr, STRING_PROBE_SIZE);
      if strData.Some? {
        assert strData.value == Read(mem, ptr, STRING_PROBE_SIZE).value;
        var len := IndexOfZero(strData.value);
        if len > 0 {
          var decoded := AsciiDecode(strData.value[..len]);
          if AllPrintable(decoded) {
            inlineString := Some(decoded);
          }
        }
      }
    }
  }

  /** An inline string is exactly the decoded bytes at the pointer up to a zero byte
      that is not the first, all printable, within the 64 mapped bytes read. */
  lemma {:induction false} InlineStringShape(mem: Memory, ptr: U64)
    ensures var r := InlineString(mem, ptr);
            r.Some? ==>
              ptr != 0 && Mapped(mem, ptr, STRING_PROBE_SIZE) &&
              0 < |r.value| < STRING_PROBE_SIZE && AllPrintable(r.value) &&
              mem[ptr + |r.value|] == 0 &&
              var text := Read(mem, ptr, |r.value|).value;
              r.value == AsciiDecode(text) && forall i :: 0 <= i < |text| ==> text[i] != 0
  {
    var r := InlineString(mem, ptr);
    if r.Some? {
      var data := Read(mem, ptr, STRING_PROBE_SIZE).value;
      var len := IndexOfZero(data);
      assert data[len] == mem[ptr + len];
      assert Mapped(mem, ptr, len);
      assert data[..len] == Read(mem, ptr, len).value;
    }
  }

  /** Printable ASCII text followed by a zero byte, behind a non-zero pointer into 64
      mapped bytes, is found. */
  lemma {:induction false} InlineStringFound(mem: Memory, ptr: U64, text: seq<Byte>)
    requires ptr != 0 && Mapped(mem, ptr, STRING_PROBE_SIZE)
    requires 0 < |text| < STRING_PROBE_SIZE
    requires forall i :: 0 <= i < |text| ==> 0x20 <= text[i] < 0x7F && mem[ptr + i] == text[i]
    requires mem[ptr + |text|] == 0
    ensures InlineString(mem, ptr) == Some(AsciiDecode(text))
  {
    var data := Read(mem, ptr, STRING_PROBE_SIZE).value;
    assert data[|text|] == 0;
    forall i | 0 <= i < |text|
      ensures data[i] == text[i] && data[i] != 0
    {
    }
    assert data[..|text|] == text;
    assert IndexOfZero(data) == |text|;
  }

  /** Bytes from 0x80 up do not stop a string: they are shown as '?', which passes the
      printable filter. */
  lemma HighByteShownAsQuestionMark()
    ensures StringIn([0x41, 0xC3, 0xA9, 0]) == Some("A??")
  {
    var data: seq<Byte> := [0x41, 0xC3, 0xA9, 0];
    assert IndexOfZero(data) == 3;
    assert data[..3] == [0x41, 0xC3, 0xA9];
    assert AsciiDecode([0x41, 0xC3, 0xA9]) == "A??";
  }

  // ---- listing lines ----

  /** One line of a listing, before formatting: a label heading, a string comment on
      its own line, or an instruction with its address, bytes, text and (for
      `ReadDismAtAddress`) the inline string on the same line. */
  datatype Line =
    | LabelLine(name: string)
    | StringLine(text: string)
    | InstructionLine(address: U64, bytes: seq<Byte>, instruction: string, inlineString: Option<string>)

  /** `GetLabel(address)`: a heading when a non-empty label is there. */
  function LabelLines(s: Snapshot, address: U64): seq<Line> {
    match Bridge.DbgGetLabelAt(s, address)
    case Some(name) => if name != "" then [LabelLine(name)] else []
    case None => []
  }

  function InstructionLines(lines: seq<Line>): nat {
    if |lines| == 0 then 0
    else InstructionLines(lines[..|lines| - 1]) + (if lines[|lines| - 1].InstructionLine? then 1 else 0)
  }

  lemma {:induction false} InstructionLinesAppend(a: seq<Line>, b: seq<Line>)
    ensures InstructionLines(a + b) == InstructionLines(a) + InstructionLines(b)
    decreases |b|
  {
    if |b| > 0 {
      InstructionLinesAppend(a, b[..|b| - 1]);
      assert (a + b)[..|a + b| - 1] == a + b[..|b| - 1];
    } else {
      assert a + b == a;
    }
  }

  // ---- ReadDismAtAddress ----

  /** The loop variables: `MyAddresses`, `bytesRead`, `instructionCount` and the
      lines written so far. */
  datatype Cursor = Cursor(address: U64, bytesRead: int, instructionCount: nat, lines: seq<Line>)

  /** One iteration; `None` when reading the instruction's own bytes fails, which
      throws out of the loop. */
  function Step(s: Snapshot, c: Cursor): (r: Option<Cursor>)
    ensures r.Some? ==> r.value.bytesRead > c.bytesRead
  {
    var lines := c.lines + LabelLines(s, c.address);
    var d := s.disasm(s.memory, c.address);
    if d.size == 0 then Some(Cursor(Wrap(c.address + 1), c.bytesRead + 1, c.instructionCount, lines))
    else
      match Read(s.memory, c.address, d.size)
      case None => None
      case Some(bytes) =>
        Some(Cursor(Wrap(c.address + d.size), c.bytesRead + d.size, c.instructionCount + 1,
                    lines + [InstructionLine(c.address, bytes, d.instruction, InlineString(s.memory, ProbePointer(d)))]))
  }

  /** The loop from cursor `c` on. */
  function Sweep(s: Snapshot, c: Cursor, byteCount: int): Option<Cursor>
    decreases byteCount - c.bytesRead
  {
    if c.instructionCount < MAX_INSTRUCTIONS && c.bytesRead < byteCount then
      match Step(s, c)
      case None => None
      case Some(next) => Sweep(s, next, byteCount)
    else Some(c)
  }

  /** The command's outcome: the error text, or the lines with the two trailers. */
  datatype DisasmResult =
    | DisasmError
    | Listing(lines: seq<Line>, instructionLimitReached: bool, byteLimitReached: bool)

  function DisassemblyAt(s: Snapshot, address: string, byteCount: int): DisasmResult {
    match BytePatterns.ParseArgAddress(address)
    case None => DisasmError
    case Some(start) =>
      match Sweep(s, Cursor(start, 0, 0, []), byteCount)
      case None => DisasmError
      case Some(c) => Listing(c.lines, c.instructionCount >= MAX_INSTRUCTIONS, c.bytesRead >= byteCount)
  }

  /** One pass of the `ReadDismAtAddress` loop body at the cursor's address: the
      labels, then for a decoded instruction its bytes and inline string. */
  method DisasmIteration(s: Snapshot, myAddresses: U64, bytesRead: int, instructionCount: nat, lines: seq<Line>)
    returns (r: Option<Cursor>)
    ensures r == Step(s, Cursor(myAddresses, bytesRead, instructionCount, lines))
  {
    ghost var here := Cursor(myAddresses, bytesRead, instructionCount, lines);
    var output := lines;
    var labelText := Bridge.DbgGetLabelAt(s, myAddresses);
    if labelText.Some? && labelText.value != "" {
      output := output + [LabelLine(labelText.value)];
    }
    assert output == here.lines + LabelLines(s, here.address);
    var disasm := s.disasm(s.memory, myAddresses);
    if disasm.size == 0 {
      return Some(Cursor(Wrap(myAddresses + 1), bytesRead + 1, instructionCount, output));
    }
    var ptr := ProbePointer(disasm);
    var inlineString := ProbeString(s.memory, ptr);
    var bytes := MemoryAccess.ReadMemory(s.memory, myAddresses, disasm.size);
    if bytes.None? {
      return None;
    }
    assert bytes.value == Read(s.memory, myAddresses, disasm.size).value;
    output := output + [InstructionLine(myAddresses, bytes.value, disasm.instruction, inlineString)];
    return Some(Cursor(Wrap(myAddresses + disasm.size), bytesRead + disasm.size, instructionCount + 1, output));
  }

  /** `ReadDismAtAddress(address, byteCount)`. An address that does not parse and a
      failed read of an instruction's bytes both end in the catch, which replaces the
      whole listing with the error text. */
  method ReadDismAtAddress(s: Snapshot, address: string, byteCount: int) returns (r: DisasmResult)
    ensures r == DisassemblyAt(s, address, byteCount)
  {
    var parsed := BytePatterns.ParseArgAddress(address);
    if parsed.None? {
      return DisasmError;
    }
    var myAddresses: U64 := parsed.value;
    var instructionCount: nat := 0;
    var bytesRead := 0;
    var output: seq<Line> := [];
    while instructionCount < MAX_INSTRUCTIONS && bytesRead < byteCount
      invariant Sweep(s, Cursor(myAddresses, bytesRead, instructionCount, output), byteCount) ==
                Sweep(s, Cursor(parsed.value, 0, 0, []), byteCount)
      decreases byteCount - bytesRead
    {
      var step := DisasmIteration(s, myAddresses, bytesRead, instructionCount, output);
      if step.None? {
        return DisasmError;
      }
      myAddresses, bytesRead, instructionCount, output :=
        step.value.address, step.value.bytesRead, step.value.instructionCount, step.value.lines;
    }
    r := Listing(output, instructionCount >= MAX_INSTRUCTIONS, bytesRead >= byteCount);
  }

  // ---- properties of the sweep ----

  /** One step: an undecodable byte advances the address and `bytesRead` by exactly one
      and counts no instruction; a decoded instruction advances both by its size and
      counts one; the step fails exactly when that instruction's bytes are unmapped. */
  lemma StepProgress(s: Snapshot, c: Cursor)
    ensures var d := s.disasm(s.memory, c.address);
            var r := Step(s, c);
            (d.size == 0 ==> r.Some? && r.value.address == Wrap(c.address + 1) &&
                             r.value.bytesRead == c.bytesRead + 1 && r.value.instructionCount == c.instructionCount) &&
            (d.size > 0 ==> (r.Some? <==> Mapped(s.memory, c.address, d.size))) &&
            (d.size > 0 && r.Some? ==>
               r.value.address == Wrap(c.address + d.size) &&
               r.value.bytesRead == c.bytesRead + d.size &&
               r.value.instructionCount == c.instructionCount + 1)
  {
  }

  /** Label headings hold no instruction line. */
  lemma LabelLinesCountNothing(s: Snapshot, address: U64)
    ensures InstructionLines(LabelLines(s, address)) == 0
  {
    var l := LabelLines(s, address);
    if l != [] {
      assert l[..0] == [];
    }
  }

  /** One step keeps the lines so far as a prefix and adds one instruction line
      exactly when it counts an instruction. */
  lemma {:induction false} StepLines(s: Snapshot, c: Cursor)
    ensures var r := Step(s, c);
            r.Some? ==>
              |c.lines| <= |r.value.lines| && r.value.lines[..|c.lines|] == c.lines &&
              InstructionLines(r.value.lines) - InstructionLines(c.lines) == r.value.instructionCount - c.instructionCount
  {
    var r := Step(s, c);
    if r.Some? {
      var heading := LabelLines(s, c.address);
      LabelLinesCountNothing(s, c.address);
      var extra := r.value.lines[|c.lines + heading|..];
      assert r.value.lines == (c.lines + heading) + extra;
      assert InstructionLines(extra) == r.value.instructionCount - c.instructionCount by {
        if extra != [] {
          assert extra[..0] == [];
        }
      }
      ExtendLines(c.lines, heading);
      ExtendLines(c.lines + heading, extra);
      assert r.value.lines[..|c.lines|] == c.lines;
    }
  }

  /** Appending keeps the old lines as a prefix and adds the appended part's count. */
  lemma ExtendLines(a: seq<Line>, b: seq<Line>)
    ensures (a + b)[..|a|] == a
    ensures InstructionLines(a + b) == InstructionLines(a) + InstructionLines(b)
  {
    assert (a + b)[..|a|] == a;
    InstructionLinesAppend(a, b);
  }

  /** The sweep ends only at a limit, never past the instruction limit, and lists one
      instruction line per instruction counted. */
  lemma {:induction false} SweepLimits(s: Snapshot, c: Cursor, byteCount: int)
    requires c.instructionCount <= MAX_INSTRUCTIONS
    ensures var r := Sweep(s, c, byteCount);
            r.Some? ==>
              r.value.instructionCount <= MAX_INSTRUCTIONS &&
              (r.value.instructionCount >= MAX_INSTRUCTIONS || r.value.bytesRead >= byteCount) &&
              InstructionLines(r.value.lines) - r.value.instructionCount == InstructionLines(c.lines) - c.instructionCount
    decreases byteCount - c.bytesRead
  {
    if c.instructionCount < MAX_INSTRUCTIONS && c.bytesRead < byteCount {
      var next := Step(s, c);
      if next.Some? {
        StepLines(s, c);
        StepProgress(s, c);
        SweepLimits(s, next.value, byteCount);
      }
    }
  }

  /** An instruction line shows what the decoder reports at its address: a non-zero
      size, exactly the bytes there, the instruction text and the inline string. */
  predicate ListsDecoded(s: Snapshot, line: Line) {
    line.InstructionLine? ==>
      var d := s.disasm(s.memory, line.address);
      d.size > 0 && Read(s.memory, line.address, d.size) == Some(line.bytes) &&
      line.instruction == d.instruction &&
      line.inlineString == InlineString(s.memory, ProbePointer(d))
  }

  predicate AllListDecoded(s: Snapshot, lines: seq<Line>) {
    forall i :: 0 <= i < |lines| ==> ListsDecoded(s, lines[i])
  }

  lemma {:induction false} SweepListsDecoded(s: Snapshot, c: Cursor, byteCount: int)
    requires AllListDecoded(s, c.lines)
    ensures var r := Sweep(s, c, byteCount);
            r.Some? ==> AllListDecoded(s, r.value.lines)
    decreases byteCount - c.bytesRead
  {
    if c.instructionCount < MAX_INSTRUCTIONS && c.bytesRead < byteCount {
      var next := Step(s, c);
      if next.Some? {
        var n := next.value.lines;
        forall i | 0 <= i < |n| ensures ListsDecoded(s, n[i]) {
          if i >= |c.lines| && n[i].InstructionLine? {
            assert n[i].address == c.address;
          }
        }
        SweepListsDecoded(s, next.value, byteCount);
      }
    }
  }

  /** What `ReadDismAtAddress` promises: a listing always carries at least one
      trailer, the instruction trailer exactly when 5000 instructions were listed (and
      never more), and every instruction line is what the decoder reports. */
  lemma ListingShape(s: Snapshot, address: string, byteCount: int)
    ensures var r := DisassemblyAt(s, address, byteCount);
            r.Listing? ==>
              (r.instructionLimitReached || r.byteLimitReached) &&
              InstructionLines(r.lines) <= MAX_INSTRUCTIONS &&
              (r.instructionLimitReached <==> InstructionLines(r.lines) == MAX_INSTRUCTIONS) &&
              AllListDecoded(s, r.lines)
  {
    var start := BytePatterns.ParseArgAddress(address);
    if start.Some? {
      var c := Cursor(start.value, 0, 0, []);
      SweepLimits(s, c, byteCount);
      SweepListsDecoded(s, c, byteCount);
    }
  }

  /** An instruction whose bytes cannot be read turns the whole command into the
      error text, even after lines were produced. */
  lemma {:induction false} UnreadableInstructionFails(s: Snapshot, c: Cursor, byteCount: int)
    requires c.instructionCount < MAX_INSTRUCTIONS && c.bytesRead < byteCount
    requires s.disasm(s.memory, c.address).size > 0
    requires !Mapped(s.memory, c.address, s.disasm(s.memory, c.address).size)
    ensures Sweep(s, c, byteCount).None?
  {
    StepProgress(s, c);
  }

  // ---- the sweep of DumpModuleToFile ----

  /** The dump loop's variables: `currentAddr`, `instructionCount` and the lines
      written to the file so far. */
  datatype DumpCursor = DumpCursor(address: U64, instructionCount: nat, lines: seq<Line>)

  datatype DumpStepResult = Moved(next: DumpCursor) | Aborted(written: seq<Line>)

  /** One iteration of the dump loop. The string comment is written before the
      instruction line, so a failed read of the instruction's bytes leaves the
      heading and the comment in the file. */
  function DumpStep(s: Snapshot, c: DumpCursor): (r: DumpStepResult)
    ensures r.Moved? ==>
              r.next.instructionCount == c.instructionCount + 1 ||
              (r.next.instructionCount == c.instructionCount && r.next.address == Wrap(c.address + 1))
  {
    var lines := c.lines + LabelLines(s, c.address);
    var d := s.disasm(s.memory, c.address);
    if d.size == 0 then Moved(DumpCursor(Wrap(c.address + 1), c.instructionCount, lines))
    else
      var str := InlineString(s.memory, ProbePointer(d));
      var withString := lines + (if str.Some? then [StringLine(str.value)] else []);
      match Read(s.memory, c.address, d.size)
      case None => Aborted(withString)
      case Some(bytes) =>
        Moved(DumpCursor(Wrap(c.address + d.size), c.instructionCount + 1,
                         withString + [InstructionLine(c.address, bytes, d.instruction, None)]))
  }

  /** The file's disassembly section: its lines, whether the truncation note follows,
      and whether an exception cut it short. */
  datatype DumpOutcome = DumpOutcome(lines: seq<Line>, truncated: bool, aborted: bool)

  function DumpFrom(s: Snapshot, c: DumpCursor, endAddr: U64): DumpOutcome
    decreases DUMP_MAX_INSTRUCTIONS - c.instructionCount, endAddr - c.address
  {
    if c.address < endAddr && c.instructionCount < DUMP_MAX_INSTRUCTIONS then
      match DumpStep(s, c)
      case Aborted(written) => DumpOutcome(written, false, true)
      case Moved(next) =>
        WrapInRange(c.address + 1);
        DumpFrom(s, next, endAddr)
    else DumpOutcome(c.lines, c.instructionCount >= DUMP_MAX_INSTRUCTIONS, false)
  }

  /** The dump loop over a module found at `moduleBase` with `moduleSize` bytes; the
      end address is computed with `nuint` wrap-around. */
  function ModuleDump(s: Snapshot, moduleBase: U64, moduleSize: U64): DumpOutcome {
    DumpFrom(s, DumpCursor(moduleBase, 0, []), Wrap(moduleBase + moduleSize))
  }

  /** One pass of the dump loop's body at the cursor's address: the labels, then
      for a decoded instruction the inline string and the instruction's bytes. */
  method DumpIteration(s: Snapshot, currentAddr: U64, instructionCount: nat, lines: seq<Line>)
    returns (r: DumpStepResult)
    ensures r == DumpStep(s, DumpCursor(currentAddr, instructionCount, lines))
  {
    ghost var here := DumpCursor(currentAddr, instructionCount, lines);
    var written := lines;
    var labelText := Bridge.DbgGetLabelAt(s, currentAddr);
    if labelText.Some? && labelText.value != "" {
      written := written + [LabelLine(labelText.value)];
    }
    assert written == here.lines + LabelLines(s, here.address);
    var disasm := s.disasm(s.memory, currentAddr);
    if disasm.size == 0 {
      return Moved(DumpCursor(Wrap(currentAddr + 1), instructionCount, written));
    }
    var possiblePtr := ProbePointer(disasm);
    var inlineString := ProbeString(s.memory, possiblePtr);
    if inlineString.Some? {
      written := written + [StringLine(inlineString.value)];
    }
    var bytes := MemoryAccess.ReadMemory(s.memory, currentAddr, disasm.size);
    if bytes.None? {
      return Aborted(written);
    }
    assert bytes.value == Read(s.memory, currentAddr, disasm.size).value;
    written := written + [InstructionLine(currentAddr, bytes.value, disasm.instruction, None)];
    return Moved(DumpCursor(Wrap(currentAddr + disasm.size), instructionCount + 1, written));
  }

  /** The disassembly loop of `DumpModuleToFile`. */
  method DumpModuleSweep(s: Snapshot, moduleBase: U64, moduleSize: U64) returns (outcome: DumpOutcome)
    ensures outcome == ModuleDump(s, moduleBase, moduleSize)
  {
    var currentAddr: U64 := moduleBase;
    var endAddr := Wrap(moduleBase + moduleSize);
    var instructionCount: nat := 0;
    var written: seq<Line> := [];
    while currentAddr < endAddr && instructionCount < DUMP_MAX_INSTRUCTIONS
      invariant DumpFrom(s, DumpCursor(currentAddr, instructionCount, written), endAddr) ==
                ModuleDump(s, moduleBase, moduleSize)
      decreases DUMP_MAX_INSTRUCTIONS - instructionCount, endAddr - currentAddr
    {
      var step := DumpIteration(s, currentAddr, instructionCount, written);
      if step.Aborted? {
        return DumpOutcome(step.written, false, true);
      }
      WrapInRange(currentAddr + 1);
      currentAddr, instructionCount, written := step.next.address, step.next.instructionCount, step.next.lines;
    }
    outcome := DumpOutcome(written, instructionCount >= DUMP_MAX_INSTRUCTIONS, false);
  }

  // ---- properties of the dump ----

  /** Lines that are not instruction lines add nothing to the count and keep what
      came before as a prefix. */
  lemma {:induction false} AppendPlain(a: seq<Line>, b: seq<Line>)
    requires forall i :: 0 <= i < |b| ==> !b[i].InstructionLine?
    ensures InstructionLines(a + b) == InstructionLines(a) && (a + b)[..|a|] == a
    decreases |b|
  {
    if |b| > 0 {
      AppendPlain(a, b[..|b| - 1]);
      assert (a + b)[..|a + b| - 1] == a + b[..|b| - 1];
    } else {
      assert a + b == a;
    }
  }

  /** The lines one dump step writes before its instruction line: the labels, and
      the inline string when the instruction decoded. */
  ghost function StepPreamble(s: Snapshot, c: DumpCursor): seq<Line> {
    var lines := c.lines + LabelLines(s, c.address);
    var d := s.disasm(s.memory, c.address);
    if d.size == 0 then lines
    else
      var str := InlineString(s.memory, ProbePointer(d));
      lines + (if str.Some? then [StringLine(str.value)] else [])
  }

  lemma {:induction false} StepPreambleKeeps(s: Snapshot, c: DumpCursor)
    ensures var p := StepPreamble(s, c);
            |c.lines| <= |p| && p[..|c.lines|] == c.lines &&
            InstructionLines(p) == InstructionLines(c.lines)
  {
    var labels := LabelLines(s, c.address);
    var lines := c.lines + labels;
    AppendPlain(c.lines, labels);
    var d := s.disasm(s.memory, c.address);
    if d.size > 0 {
      var str := InlineString(s.memory, ProbePointer(d));
      var extra := if str.Some? then [StringLine(str.value)] else [];
      AppendPlain(lines, extra);
      var p := lines + extra;
      assert p[..|lines|][..|c.lines|] == p[..|c.lines|];
    }
  }

  /** A step ends in its preamble, followed by one instruction line exactly when it
      counts an instruction. */
  lemma StepAfterPreamble(s: Snapshot, c: DumpCursor)
    ensures var r := DumpStep(s, c);
            var p := StepPreamble(s, c);
            (r.Aborted? ==> r.written == p) &&
            (r.Moved? && r.next.instructionCount == c.instructionCount ==> r.next.lines == p) &&
            (r.Moved? && r.next.instructionCount != c.instructionCount ==>
               r.next.instructionCount == c.instructionCount + 1 &&
               |r.next.lines| == |p| + 1 && r.next.lines[..|p|] == p &&
               r.next.lines[|p|].InstructionLine?)
  {
  }

  /** One dump step keeps the lines written so far as a prefix and adds one
      instruction line exactly when it counts an instruction. */
  lemma {:induction false} DumpStepLines(s: Snapshot, c: DumpCursor)
    ensures var r := DumpStep(s, c);
            (r.Aborted? ==>
               |c.lines| <= |r.written| && r.written[..|c.lines|] == c.lines &&
               InstructionLines(r.written) == InstructionLines(c.lines)) &&
            (r.Moved? ==>
               |c.lines| <= |r.next.lines| && r.next.lines[..|c.lines|] == c.lines &&
               InstructionLines(r.next.lines) - InstructionLines(c.lines) == r.next.instructionCount - c.instructionCount)
  {
    var r := DumpStep(s, c);
    var p := StepPreamble(s, c);
    StepPreambleKeeps(s, c);
    StepAfterPreamble(s, c);
    if r.Moved? && r.next.instructionCount != c.instructionCount {
      var all := r.next.lines;
      assert all == p + [all[|p|]];
      InstructionLinesAppend(p, [all[|p|]]);
      assert all[..|p|][..|c.lines|] == all[..|c.lines|];
    }
  }

  /** The dump never loses what it wrote: every line written before is still there,
      first, even when an exception cuts the loop short; it lists at most 10000
      instructions and notes truncation exactly when it lists that many. */
  lemma {:induction false} DumpKeepsLines(s: Snapshot, c: DumpCursor, endAddr: U64)
    requires c.instructionCount <= DUMP_MAX_INSTRUCTIONS
    ensures var r := DumpFrom(s, c, endAddr);
            |c.lines| <= |r.lines| && r.lines[..|c.lines|] == c.lines &&
            !(r.truncated && r.aborted) &&
            InstructionLines(r.lines) - InstructionLines(c.lines) <= DUMP_MAX_INSTRUCTIONS - c.instructionCount &&
            (r.truncated <==> !r.aborted && InstructionLines(r.lines) - InstructionLines(c.lines) == DUMP_MAX_INSTRUCTIONS - c.instructionCount)
    decreases DUMP_MAX_INSTRUCTIONS - c.instructionCount, endAddr - c.address
  {
    if c.address < endAddr && c.instructionCount < DUMP_MAX_INSTRUCTIONS {
      DumpStepLines(s, c);
      match DumpStep(s, c)
      case Aborted(_) =>
      case Moved(next) =>
        WrapInRange(c.address + 1);
        DumpKeepsLines(s, next, endAddr);
        var r := DumpFrom(s, next, endAddr);
        assert r.lines[..|next.lines|][..|c.lines|] == r.lines[..|c.lines|];
    }
  }

  /** A dump that was neither cut short nor truncated walked to the module's end. */
  lemma {:induction false} DumpReachesEnd(s: Snapshot, c: DumpCursor, endAddr: U64)
    ensures var r := DumpFrom(s, c, endAddr);
            !r.aborted && !r.truncated ==> c.address >= endAddr || exists f :: Reached(s, c, f, endAddr)
    decreases DUMP_MAX_INSTRUCTIONS - c.instructionCount, endAddr - c.address
  {
    if c.address < endAddr && c.instructionCount < DUMP_MAX_INSTRUCTIONS {
      match DumpStep(s, c)
      case Aborted(_) =>
      case Moved(next) =>
        WrapInRange(c.address + 1);
        DumpReachesEnd(s, next, endAddr);
        var r := DumpFrom(s, c, endAddr);
        if !r.aborted && !r.truncated {
          if next.address >= endAddr {
            assert Reached(s, c, next, endAddr);
          } else {
            var f :| Reached(s, next, f, endAddr);
            assert Reached(s, c, f, endAddr);
          }
        }
    }
  }

  /** `f` is a cursor at or past the end that the loop reaches from `c`. */
  predicate Reached(s: Snapshot, c: DumpCursor, f: DumpCursor, endAddr: U64) {
    f.address >= endAddr && DumpFrom(s, c, endAddr) == DumpFrom(s, f, endAddr)
  }
}
