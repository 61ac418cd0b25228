/** Byte patterns: `ParseBytePattern` for hyphen-separated hex text, and
    `LabelMatchingBytes`, which labels or comments an address only when the memory
    there equals a given pattern, together with the splitting of its command
    arguments into address, pattern, text and mode. */
module BytePatterns {
  import opened Prelude
  import opened Engine
  import opened Text
  import MemoryAccess

  // ---- ParseBytePattern ----

  /** `pattern.Split('-').Select(b => Convert.ToByte(b, 16)).ToArray()`; `None` where
      a piece does not convert (the exception escapes to the caller). */
  function ParseBytePattern(pattern: string): (r: Option<seq<Byte>>)
    ensures r.Some? ==> |r.value| == |Split(pattern, {'-'})|
  {
    ConvertPieces(Split(pattern, {'-'}))
  }

  function ConvertPieces(pieces: seq<string>): (r: Option<seq<Byte>>)
    ensures r.Some? <==> forall i :: 0 <= i < |pieces| ==> ConvertHex(pieces[i], 0x100).Some?
    ensures r.Some? ==> |r.value| == |pieces| &&
                        forall i :: 0 <= i < |pieces| ==> r.value[i] == ConvertHex(pieces[i], 0x100).value
  {
    if |pieces| == 0 then Some([])
    else
      var head := ConvertHex(pieces[0], 0x100);
      var rest := ConvertPieces(pieces[1..]);
      if head.Some? && rest.Some? then Some([head.value] + rest.value)
      else
        assert rest.None? ==> exists i :: 1 <= i < |pieces| && !ConvertHex(pieces[i], 0x100).Some? by {
          if rest.None? {
            var i :| 0 <= i < |pieces[1..]| && !ConvertHex(pieces[1..][i], 0x100).Some?;
            assert !ConvertHex(pieces[i + 1], 0x100).Some?;
          }
        }
        None
  }

  /** `BitConverter.ToString(bytes)`: `X2` pairs joined by '-', the form the pattern
      text is documented in. */
  function FormatBytePattern(bytes: seq<Byte>): string {
    JoinWith(MemoryAccess.HexBytes(bytes), '-')
  }

  /** Parsing the `BitConverter.ToString` form of a non-empty byte sequence gives the
      bytes back. */
  lemma {:induction false} BytePatternRoundTrip(bytes: seq<Byte>)
    requires |bytes| >= 1
    ensures ParseBytePattern(FormatBytePattern(bytes)) == Some(bytes)
  {
    var pieces := MemoryAccess.HexBytes(bytes);
    SplitJoin(pieces, '-', {'-'});
    forall i | 0 <= i < |bytes|
      ensures ConvertHex(pieces[i], 0x100) == Some(bytes[i])
    {
      assert !HasHexPrefix(pieces[i]);
    }
    var r := ConvertPieces(pieces);
    assert r.Some?;
    assert r.value == bytes;
  }

  /** The empty text is one empty piece, which does not convert. */
  lemma EmptyPatternRejected()
    ensures ParseBytePattern("").None?
  {
    assert Split("", {'-'}) == [""];
  }

  // ---- LabelMatchingBytes(address, pattern, value, mode) ----

  /** The memory at `address` equals `pattern`, byte for byte, when `(uint)pattern.Length`
      bytes are read there. */
  predicate PatternMatches(mem: Memory, address: U64, pattern: seq<Byte>) {
    var size := |pattern| % MemoryAccess.U32_LIMIT;
    Mapped(mem, address, size) && size == |pattern| &&
    forall i :: 0 <= i < |pattern| ==> mem[address + i] == pattern[i]
  }

  /** What a match does: a label for mode "Label", a comment for mode "Comment" (both
      compared ignoring case), nothing for any other mode. */
  function Annotate(s: Snapshot, address: U64, value: string, mode: string): (t: Snapshot)
    ensures t.memory == s.memory && t.moduleAt == s.moduleAt && t.disasm == s.disasm
    ensures EqualsIgnoreCase(mode, "Label") ==> t.labels == s.labels[address := value] && t.comments == s.comments
    ensures !EqualsIgnoreCase(mode, "Label") && EqualsIgnoreCase(mode, "Comment") ==>
              t.comments == s.comments[address := value] && t.labels == s.labels
    ensures !EqualsIgnoreCase(mode, "Label") && !EqualsIgnoreCase(mode, "Comment") ==> t == s
  {
    if EqualsIgnoreCase(mode, "Label") then s.(labels := s.labels[address := value])
    else if EqualsIgnoreCase(mode, "Comment") then s.(comments := s.comments[address := value])
    else s
  }

  /** `LabelMatchingBytes(address, pattern, value, mode)`: reads `pattern.Length` bytes,
      returns quietly on a failed read or the first differing byte, otherwise sets the
      label or comment. */
  method LabelMatchingBytes(dbg: Debugger, address: U64, pattern: seq<Byte>, value: string, mode: string)
    modifies dbg
    ensures dbg.state == if PatternMatches(old(dbg.state).memory, address, pattern)
                         then Annotate(old(dbg.state), address, value, mode)
                         else old(dbg.state)
  {
    var actualBytes := MemoryAccess.ReadMemory(dbg.state.memory, address, |pattern| % MemoryAccess.U32_LIMIT);
    if actualBytes.None? {
      // the null buffer's `Length` throws; the exception is swallowed
      return;
    }
    var actual := actualBytes.value;
    if |actual| != |pattern| {
      return;
    }
    var i := 0;
    while i < |pattern|
      invariant 0 <= i <= |pattern|
      invariant forall j :: 0 <= j < i ==> actual[j] == pattern[j]
    {
      if actual[i] != pattern[i] {
        return;
      }
      i := i + 1;
    }
    if EqualsIgnoreCase(mode, "Label") {
      var _ := dbg.SetLabelAt(address, value);
    } else if EqualsIgnoreCase(mode, "Comment") {
      var _ := dbg.SetCommentAt(address, value);
    }
  }

  /** A single differing byte, or an unmapped byte in the range, leaves every label
      and comment as it was. */
  lemma {:induction false} MismatchSetsNothing(mem: Memory, address: U64, pattern: seq<Byte>, k: nat)
    requires k < |pattern|
    requires address + k !in mem || mem[address + k] != pattern[k]
    ensures !PatternMatches(mem, address, pattern)
  {
    var size := |pattern| % MemoryAccess.U32_LIMIT;
    if size == |pattern| && Mapped(mem, address, size) {
      assert address + k in mem;
    }
  }

  /** A pattern that is in memory (and fits a `uint` length) always matches. */
  lemma {:induction false} PresentPatternMatches(mem: Memory, address: U64, pattern: seq<Byte>)
    requires |pattern| < MemoryAccess.U32_LIMIT
    requires Read(mem, address, |pattern|) == Some(pattern)
    ensures PatternMatches(mem, address, pattern)
  {
    forall i | 0 <= i < |pattern|
      ensures mem[address + i] == pattern[i]
    {
      assert Read(mem, address, |pattern|).value[i] == pattern[i];
    }
  }

  /** The empty pattern matches everywhere: the text is set unconditionally. */
  lemma EmptyPatternMatchesAnywhere(mem: Memory, address: U64)
    ensures PatternMatches(mem, address, [])
  {
  }

  // ---- LabelMatchingBytes(string[] args) ----

  /** How the command arguments after the address divide into pattern elements, the
      text and the mode. */
  datatype LabelArgs = LabelArgs(patternArgs: seq<string>, value: string, mode: string)

  predicate IsModeWord(s: string) {
    EqualsIgnoreCase(s, "Label") || EqualsIgnoreCase(s, "Comment")
  }

  /** The split: with only one argument after the address it is the pattern and the
      text defaults to "test", the mode to "Label"; otherwise the last argument is the
      mode when it is a mode word (then the one before it is the text), else the text. */
  function SplitLabelArgs(args: seq<string>): (r: LabelArgs)
    requires |args| >= 2
    ensures IsModeWord(r.mode)
    ensures |args| == 2 ==> r == LabelArgs(args[1..], "test", "Label")
    ensures |args| >= 3 && IsModeWord(args[|args| - 1]) ==>
              args[1..] == r.patternArgs + [r.value, r.mode]
    ensures |args| >= 3 && !IsModeWord(args[|args| - 1]) ==>
              args[1..] == r.patternArgs + [r.value] && r.mode == "Label"
  {
    var byteCount := |args| - 1;
    if |args| >= 3 then
      var lastArg := args[|args| - 1];
      var secondLastArg := args[|args| - 2];
      if IsModeWord(lastArg) then
        assert args[1..] == args[1..1 + byteCount - 2] + [secondLastArg, lastArg];
        LabelArgs(args[1..1 + byteCount - 2], secondLastArg, lastArg)
      else
        assert args[1..] == args[1..1 + byteCount - 1] + [lastArg];
        LabelArgs(args[1..1 + byteCount - 1], lastArg, "Label")
    else
      LabelArgs(args[1..1 + byteCount], "test", "Label")
  }

  /** With three arguments and a mode word last, the pattern is empty and the middle
      argument is the text. */
  lemma {:induction false} ModeAfterSingleArgument(address: string, value: string, mode: string)
    requires IsModeWord(mode)
    ensures SplitLabelArgs([address, value, mode]) == LabelArgs([], value, mode)
  {
    var r := SplitLabelArgs([address, value, mode]);
    assert [address, value, mode][1..] == [value, mode];
    assert |r.patternArgs| == 0;
  }

  /** `Convert.ToUInt64` of the address argument: base 16 after a "0x"/"0X" prefix,
      base 10 otherwise. */
  function ParseArgAddress(s: string): (r: Option<U64>)
    ensures r.Some? <==> (if HasHexPrefix(s) then ConvertHex(s[2..], U64_LIMIT) else ConvertDecimal(s, U64_LIMIT)).Some?
  {
    var v := if HasHexPrefix(s) then ConvertHex(s[2..], U64_LIMIT) else ConvertDecimal(s, U64_LIMIT);
    match v
    case None => None
    case Some(n) => Some(n)
  }

  /** The documented address form `0x` + hex digits is read in base 16. */
  lemma {:induction false} ArgAddressRoundTrip(v: U64)
    ensures ParseArgAddress("0x" + HexFixed(v, 16)) == Some(v)
  {
    var digits := HexFixed(v, 16);
    assert ("0x" + digits)[2..] == digits;
    Pow16Sixteen();
    HexFixedValue(v, 16);
    assert !HasHexPrefix(digits);
  }

  /** `LabelMatchingBytes(string[] args)`. Too few arguments, an address or a pattern
      element that does not parse: a message and no change. Otherwise the overload
      above runs with the split arguments. */
  method LabelMatchingBytesCommand(dbg: Debugger, args: seq<string>)
    modifies dbg
    ensures |args| < 2 ==> dbg.state == old(dbg.state)
    ensures |args| >= 2 ==>
              var address := ParseArgAddress(args[0]);
              var split := SplitLabelArgs(args);
              var pattern := MemoryAccess.ParseByteTokens(split.patternArgs);
              dbg.state == if address.Some? && pattern.Some? &&
                              PatternMatches(old(dbg.state).memory, address.value, pattern.value)
                           then Annotate(old(dbg.state), address.value, split.value, split.mode)
                           else old(dbg.state)
  {
    if |args| < 2 {
      return;
    }
    var address := ParseArgAddress(args[0]);
    if address.None? {
      return;
    }
    var split := SplitLabelArgs(args);
    var pattern := MemoryAccess.ParseByteTokens(split.patternArgs);
    if pattern.None? {
      return;
    }
    LabelMatchingBytes(dbg, address.value, pattern.value, split.value, split.mode);
  }
}
