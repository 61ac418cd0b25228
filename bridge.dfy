/** The managed side of the native bridge: the text getters that decode the engine's
    fixed buffers, the size guards of the memory read and write overloads, the
    cross-reference array getter and the instruction-text buffer of
    `BASIC_INSTRUCTION_INFO`. */
module Bridge {
  import opened Prelude
  import opened Engine

  // ---- MarshalToStringUTF8(capacity) ----

  /** The text held in a NUL-terminated buffer: the bytes before the first NUL,
      looking at no more than `cap` bytes, one character per byte. */
  function DecodeBounded(buf: seq<Byte>, cap: nat): (s: string)
    ensures |s| <= cap && |s| <= |buf|
    ensures forall i :: 0 <= i < |s| ==> buf[i] != 0 && s[i] == ByteChar(buf[i])
    ensures |s| < cap && |s| < |buf| ==> buf[|s|] == 0
  {
    if cap == 0 || |buf| == 0 || buf[0] == 0 then ""
    else [ByteChar(buf[0])] + DecodeBounded(buf[1..], cap - 1)
  }

  /** Reading back a buffer the engine filled gives the text, cut to `cap - 1`
      characters. */
  lemma FillThenDecode(t: string, cap: nat)
    requires cap >= 1 && IsBufferText(t)
    ensures var n := if |t| < cap then |t| else cap - 1;
            DecodeBounded(FillBuffer(t, cap), cap) == t[..n]
  {
    var n := if |t| < cap then |t| else cap - 1;
    var buf := FillBuffer(t, cap);
    var s := DecodeBounded(buf, cap);
    assert forall i :: 0 <= i < n ==> buf[i] == CharByte(t[i]) && buf[i] != 0;
    assert buf[n] == 0;
    assert |s| == n;
    assert t[..|t|] == t;
  }

  /** The shared shape of the three text getters: `text` is decoded only when the
      native call succeeded, and is `null` (`None`) otherwise. */
  function TextReply(reply: Option<seq<Byte>>, cap: nat): (text: Option<string>)
    ensures text.Some? <==> reply.Some?
    ensures text.Some? ==> text.value == DecodeBounded(reply.value, cap)
  {
    match reply
    case None => None
    case Some(buf) => Some(DecodeBounded(buf, cap))
  }

  /** `DbgGetCommentAt(addr, out text)`. */
  function DbgGetCommentAt(s: Snapshot, addr: U64): (text: Option<string>)
    ensures text.Some? <==> addr in s.comments
    ensures text.Some? ==> |text.value| < MAX_COMMENT_SIZE
  {
    TextReply(NativeCommentAt(s, addr), MAX_COMMENT_SIZE)
  }

  /** `DbgGetLabelAt(addr, segment, out text)`; the segment is not modelled. */
  function DbgGetLabelAt(s: Snapshot, addr: U64): (text: Option<string>)
    ensures text.Some? <==> addr in s.labels
    ensures text.Some? ==> |text.value| < MAX_LABEL_SIZE
  {
    TextReply(NativeLabelAt(s, addr), MAX_LABEL_SIZE)
  }

  /** `DbgGetModuleAt(addr, out text)`. */
  function DbgGetModuleAt(s: Snapshot, addr: U64): (text: Option<string>)
    ensures text.Some? <==> s.moduleAt(addr).Some?
    ensures text.Some? ==> |text.value| < MAX_MODULE_SIZE
  {
    TextReply(NativeModuleAt(s, addr), MAX_MODULE_SIZE)
  }

  /** A label of one byte per character that fits the buffer comes back unchanged;
      a longer one comes back as its first 255 characters. */
  lemma {:induction false} LabelRoundTrip(s: Snapshot, addr: U64)
    requires addr in s.labels && IsBufferText(s.labels[addr])
    ensures var t := s.labels[addr];
            DbgGetLabelAt(s, addr) == Some(if |t| < MAX_LABEL_SIZE then t else t[..MAX_LABEL_SIZE - 1])
  {
    assert s.labels[addr][..|s.labels[addr]|] == s.labels[addr];
    FillThenDecode(s.labels[addr], MAX_LABEL_SIZE);
    assert NativeLabelAt(s, addr) == Some(FillBuffer(s.labels[addr], MAX_LABEL_SIZE));
  }

  /** The same for comments, with their 512-byte buffer. */
  lemma {:induction false} CommentRoundTrip(s: Snapshot, addr: U64)
    requires addr in s.comments && IsBufferText(s.comments[addr])
    ensures var t := s.comments[addr];
            DbgGetCommentAt(s, addr) == Some(if |t| < MAX_COMMENT_SIZE then t else t[..MAX_COMMENT_SIZE - 1])
  {
    assert s.comments[addr][..|s.comments[addr]|] == s.comments[addr];
    FillThenDecode(s.comments[addr], MAX_COMMENT_SIZE);
    assert NativeCommentAt(s, addr) == Some(FillBuffer(s.comments[addr], MAX_COMMENT_SIZE));
  }

  /** The same for module names, with their 256-byte buffer. */
  lemma {:induction false} ModuleRoundTrip(s: Snapshot, addr: U64)
    requires s.moduleAt(addr).Some? && IsBufferText(s.moduleAt(addr).value)
    ensures var t := s.moduleAt(addr).value;
            DbgGetModuleAt(s, addr) == Some(if |t| < MAX_MODULE_SIZE then t else t[..MAX_MODULE_SIZE - 1])
  {
    assert s.moduleAt(addr).value[..|s.moduleAt(addr).value|] == s.moduleAt(addr).value;
    FillThenDecode(s.moduleAt(addr).value, MAX_MODULE_SIZE);
    assert NativeModuleAt(s, addr) == Some(FillBuffer(s.moduleAt(addr).value, MAX_MODULE_SIZE));
  }

  // ---- size guards of the memory overloads ----

  /** Guard of the array overload of `DbgMemRead<T>`: a non-null buffer and a byte
      count no larger than the buffer's ELEMENT count. */
  predicate ArrayReadAdmits(length: Option<nat>, size: nat) {
    length.Some? && size <= length.value
  }

  /** Guard of the array overload of `DbgMemWrite<T>`: a non-null buffer and a byte
      count no larger than its BYTE count, `Length * sizeof(T)`. */
  predicate ArrayWriteAdmits(length: Option<nat>, elemSize: nat, size: nat) {
    length.Some? && size <= length.value * elemSize
  }

  /** The read guard is never looser than the byte capacity, so the native call cannot
      run past the buffer; for byte arrays the two guards agree. */
  lemma {:induction false} ReadGuardWithinBytes(length: Option<nat>, elemSize: nat, size: nat)
    requires elemSize >= 1
    ensures ArrayReadAdmits(length, size) ==> ArrayWriteAdmits(length, elemSize, size)
    ensures elemSize == 1 ==> (ArrayReadAdmits(length, size) <==> ArrayWriteAdmits(length, elemSize, size))
  {
    if length.Some? {
      assert length.value <= length.value * elemSize by {
        assert length.value * elemSize == length.value + length.value * (elemSize - 1);
      }
    }
  }

  /** The array overload of `DbgMemRead` on a byte buffer: the native read fills the
      first `size` bytes only when the guard admits the request and the whole range is
      mapped; otherwise the buffer is untouched. */
  method DbgMemRead(mem: Memory, va: U64, buffer: array?<Byte>, size: U64) returns (ok: bool)
    modifies buffer
    ensures !ArrayReadAdmits(if buffer == null then None else Some(buffer.Length), size) ==> !ok
    ensures ArrayReadAdmits(if buffer == null then None else Some(buffer.Length), size) ==>
              ok == Mapped(mem, va, size)
    ensures ok ==> buffer != null && size <= buffer.Length &&
                   buffer[..size] == Read(mem, va, size).value &&
                   buffer[size..] == old(buffer[size..])
    ensures !ok && buffer != null ==> buffer[..] == old(buffer[..])
  {
    if buffer == null || size > buffer.Length {
      return false;
    }
    var data := Read(mem, va, size);
    if data.None? {
      return false;
    }
    forall i | 0 <= i < size {
      buffer[i] := data.value[i];
    }
    ok := true;
  }

  /** The `ref T` overload of `DbgMemRead`, on the struct's bytes `dest`: refused when
      `size` exceeds the struct; otherwise the struct becomes the bytes read (its tail
      kept) on success and `default` (all zero) on failure. */
  method DbgMemReadStruct(mem: Memory, va: U64, dest: seq<Byte>, size: U64) returns (ok: bool, result: seq<Byte>)
    ensures size > |dest| ==> !ok && result == dest
    ensures size <= |dest| ==> ok == Mapped(mem, va, size)
    ensures ok ==> size <= |dest| && result == Read(mem, va, size).value + dest[size..]
    ensures size <= |dest| && !ok ==> result == Zeros(|dest|)
  {
    if size > |dest| {
      return false, dest;
    }
    var data := Read(mem, va, size);
    if data.Some? {
      ok, result := true, data.value + dest[size..];
    } else {
      ok, result := false, Zeros(|dest|);
    }
  }

  /** The array overload of `DbgMemWrite` on a byte buffer: refused by the guard, or
      the native all-or-nothing write of the first `size` bytes. */
  method DbgMemWrite(dbg: Debugger, va: U64, buffer: array?<Byte>, size: U64) returns (ok: bool)
    modifies dbg
    ensures !ArrayWriteAdmits(if buffer == null then None else Some(buffer.Length), 1, size) ==>
              !ok && dbg.state == old(dbg.state)
    ensures ArrayWriteAdmits(if buffer == null then None else Some(buffer.Length), 1, size) ==>
              ok == Mapped(old(dbg.state).memory, va, size) &&
              dbg.state == if ok then old(dbg.state).(memory := Write(old(dbg.state).memory, va, buffer[..size]))
                           else old(dbg.state)
  {
    if buffer == null || size > buffer.Length * 1 {
      return false;
    }
    ok := dbg.MemWrite(va, buffer[..size]);
  }

  /** The `ref T` overload of `DbgMemWrite`, on the struct's bytes `src`. */
  method DbgMemWriteStruct(dbg: Debugger, va: U64, src: seq<Byte>, size: U64) returns (ok: bool)
    modifies dbg
    ensures size > |src| ==> !ok && dbg.state == old(dbg.state)
    ensures size <= |src| ==>
              ok == Mapped(old(dbg.state).memory, va, size) &&
              dbg.state == if ok then old(dbg.state).(memory := Write(old(dbg.state).memory, va, src[..size]))
                           else old(dbg.state)
  {
    if size > |src| {
      return false;
    }
    ok := dbg.MemWrite(va, src[..size]);
  }

  // ---- XREF_INFO.references ----

  datatype XrefType = XrefNone | XrefData | XrefJmp | XrefCall

  datatype XrefRecord = XrefRecord(addr: U64, kind: XrefType)

  /** C#'s unchecked `(int)` cast of a 64-bit count: the low 32 bits as a signed value. */
  function ToInt32(n: U64): (r: int)
    ensures -0x8000_0000 <= r < 0x8000_0000
    ensures r % 0x1_0000_0000 == n % 0x1_0000_0000
  {
    var low := n % 0x1_0000_0000;
    if low < 0x8000_0000 then low else low - 0x1_0000_0000
  }

  /** The `references` getter. `records` is the native array (`None` for a null
      pointer); the result is `None` where `new XREF_RECORD[(int)refcount]` throws
      because the cast count is negative. */
  method References(refcount: U64, records: Option<seq<XrefRecord>>) returns (r: Option<seq<XrefRecord>>)
    requires records.Some? && refcount != 0 && ToInt32(refcount) >= 0 ==> ToInt32(refcount) <= |records.value|
    ensures records.None? || refcount == 0 ==> r == Some([])
    ensures records.Some? && refcount != 0 && ToInt32(refcount) < 0 ==> r.None?
    ensures records.Some? && refcount != 0 && ToInt32(refcount) >= 0 ==> r == Some(records.value[..ToInt32(refcount)])
  {
    if records.None? || refcount == 0 {
      return Some([]);
    }
    var count := ToInt32(refcount);
    if count < 0 {
      return None;
    }
    var result := new XrefRecord[count];
    var i := 0;
    while i < count
      invariant 0 <= i <= count
      invariant result[..i] == records.value[..i]
    {
      result[i] := records.value[i];
      i := i + 1;
    }
    assert result[..] == result[..count];
    return Some(result[..]);
  }

  /** Counts below 2^31 come back whole; from 2^32 on only the low 32 bits count. */
  lemma {:induction false} ReferencesCount(refcount: U64)
    ensures refcount < 0x8000_0000 ==> ToInt32(refcount) == refcount
    ensures 0x8000_0000 <= refcount % 0x1_0000_0000 ==> ToInt32(refcount) < 0
    ensures refcount % 0x1_0000_0000 == 0 ==> ToInt32(refcount) == 0
  {
  }

  // ---- BASIC_INSTRUCTION_INFO.instruction ----

  const INSTRUCTION_CAPACITY: nat := MAX_MNEMONIC_SIZE * 4

  /** The text a `MarshalToPtrUTF8(ptr, cap)` leaves in a buffer that held `prior`: at most
      `cap - 1` characters, a NUL after them, the remaining bytes as they were. */
  function StoreText(prior: seq<Byte>, t: string): (buf: seq<Byte>)
    requires |prior| >= 1
    ensures |buf| == |prior|
  {
    var n := if |t| < |prior| then |t| else |prior| - 1;
    EncodeText(t[..n]) + [0] + prior[n + 1..]
  }

  /** The instruction-text part of `BASIC_INSTRUCTION_INFO`: a fixed buffer of
      `MAX_MNEMONIC_SIZE * 4` bytes behind the `instruction` property. */
  class InstructionText {
    const instructionBytes: array<Byte>

    ghost predicate Valid()
      reads this
    {
      instructionBytes.Length == INSTRUCTION_CAPACITY
    }

    constructor ()
      ensures Valid() && fresh(instructionBytes)
      ensures instructionBytes[..] == Zeros(INSTRUCTION_CAPACITY)
    {
      instructionBytes := new Byte[INSTRUCTION_CAPACITY](_ => 0);
    }

    /** The `instruction` getter. */
    function Instruction(): (s: string)
      reads this, instructionBytes
      requires Valid()
      ensures |s| <= INSTRUCTION_CAPACITY
      ensures forall i :: 0 <= i < |s| ==> instructionBytes[i] != 0 && s[i] == ByteChar(instructionBytes[i])
    {
      DecodeBounded(instructionBytes[..], INSTRUCTION_CAPACITY)
    }

    /** The `instruction` setter. */
    method SetInstruction(t: string)
      requires Valid()
      modifies instructionBytes
      ensures Valid()
      ensures instructionBytes[..] == StoreText(old(instructionBytes[..]), t)
    {
      var n := if |t| < instructionBytes.Length then |t| else instructionBytes.Length - 1;
      ghost var before := instructionBytes[..];
      var i := 0;
      while i < n
        invariant 0 <= i <= n
        invariant instructionBytes[..i] == EncodeText(t[..i])
        invariant forall j :: i <= j < instructionBytes.Length ==> instructionBytes[j] == before[j]
      {
        instructionBytes[i] := CharByte(t[i]);
        i := i + 1;
      }
      instructionBytes[n] := 0;
      assert instructionBytes[..] == instructionBytes[..n] + [0] + instructionBytes[n + 1..];
    }
  }

  /** Setting then getting the instruction text gives it back, cut to 255 characters,
      whatever the buffer held before. */
  lemma {:induction false} InstructionRoundTrip(before: seq<Byte>, t: string)
    requires |before| == INSTRUCTION_CAPACITY && IsBufferText(t)
    ensures var n := if |t| < INSTRUCTION_CAPACITY then |t| else INSTRUCTION_CAPACITY - 1;
            DecodeBounded(StoreText(before, t), INSTRUCTION_CAPACITY) == t[..n]
  {
    var n := if |t| < INSTRUCTION_CAPACITY then |t| else INSTRUCTION_CAPACITY - 1;
    var buf := StoreText(before, t);
    var s := DecodeBounded(buf, INSTRUCTION_CAPACITY);
    assert forall i :: 0 <= i < n ==> buf[i] == CharByte(t[i]) && buf[i] != 0;
    assert buf[n] == 0;
    assert |s| == n;
  }
}
