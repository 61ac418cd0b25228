/** The plugin's memory helpers and the two commands that write memory:
    `ReadMemory`, `WriteMemory`, `WriteMemToAddress` (address and byte-list parsing)
    and `PatchWithNops`. */
module MemoryAccess {
  import opened Prelude
  import opened Engine
  import opened Text
  import Bridge

  const U32_LIMIT: nat := 0x1_0000_0000

  /** A C# `int`. */
  type I32 = n: int | -0x8000_0000 <= n < 0x8000_0000

  /** `ReadMemory(address, size)`: a new buffer of `size` bytes filled by
      `DbgMemRead`, or `null` (`None`) when the read fails. */
  method ReadMemory(mem: Memory, address: U64, size: nat) returns (r: Option<seq<Byte>>)
    requires size < U32_LIMIT
    ensures r.Some? <==> Mapped(mem, address, size)
    ensures r.Some? ==> |r.value| == size && forall i :: 0 <= i < size ==> r.value[i] == mem[address + i]
  {
    var buffer := new Byte[size];
    var ok := Bridge.DbgMemRead(mem, address, buffer, size);
    if !ok {
      return None;
    }
    assert buffer[..] == buffer[..size];
    return Some(buffer[..]);
  }

  /** `WriteMemory(address, data)`: `DbgMemWrite` of `(uint)data.Length` bytes. */
  method WriteMemory(dbg: Debugger, address: U64, data: seq<Byte>) returns (ok: bool)
    modifies dbg
    ensures var size := |data| % U32_LIMIT;
            ok == Mapped(old(dbg.state).memory, address, size) &&
            dbg.state == if ok then old(dbg.state).(memory := Write(old(dbg.state).memory, address, data[..size]))
                         else old(dbg.state)
  {
    var buffer := new Byte[|data|](i requires 0 <= i < |data| => data[i]);
    assert buffer[..] == data;
    ok := Bridge.DbgMemWrite(dbg, address, buffer, |data| % U32_LIMIT);
  }

  // ---- address text ----

  /** `ulong.TryParse(address.Replace("0x", ""), NumberStyles.HexNumber, ...)`. */
  function ParseAddressText(address: string): (r: Option<U64>)
    ensures r.Some? <==> ParseHexNumber(RemoveHexMarkers(address), U64_LIMIT).Some?
    ensures r.Some? ==> r.value == ParseHexNumber(RemoveHexMarkers(address), U64_LIMIT).value
  {
    match ParseHexNumber(RemoveHexMarkers(address), U64_LIMIT)
    case None => None
    case Some(v) => Some(v)
  }

  /** An address printed as `0x` and sixteen `X` digits parses back to itself. */
  lemma {:induction false} AddressRoundTrip(v: U64)
    ensures ParseAddressText("0x" + HexFixed(v, 16)) == Some(v)
  {
    var digits := HexFixed(v, 16);
    assert ("0x" + digits)[2..] == digits;
    assert RemoveHexMarkers("0x" + digits) == digits;
    ParseHexFixed(v);
  }

  /** Only the lower-case marker is removed: an address written "0X..." is rejected. */
  lemma {:induction false} UpperCaseMarkerRejected(digits: string)
    requires AllHex(digits)
    ensures ParseAddressText("0X" + digits).None?
  {
    var s := "0X" + digits;
    assert RemoveHexMarkers(s) == "0X" + RemoveHexMarkers(digits) by {
      assert s[1..] == "X" + digits;
      assert s[1..][1..] == digits;
    }
    assert RemoveHexMarkers(digits) == digits;
    var t := TrimNumberWhite("0X" + digits);
    assert t == "0X" + digits;
    assert !IsHexDigit(t[1]);
  }

  // ---- byte lists ----

  /** One element of a byte list: an optional "0x"/"0X" prefix is dropped, then
      `byte.Parse(_, NumberStyles.HexNumber)`. */
  function ParseByteToken(b: string): (r: Option<Byte>)
    ensures r.Some? <==> ParseHexNumber(if HasHexPrefix(b) then b[2..] else b, 0x100).Some?
  {
    var t := if HasHexPrefix(b) then b[2..] else b;
    match ParseHexNumber(t, 0x100)
    case None => None
    case Some(v) => Some(v)
  }

  /** The LINQ `Select(...).ToArray()`: every element parses, or the whole list
      fails (the exception). */
  function ParseByteTokens(parts: seq<string>): (r: Option<seq<Byte>>)
    ensures r.Some? <==> forall i :: 0 <= i < |parts| ==> ParseByteToken(parts[i]).Some?
    ensures r.Some? ==> |r.value| == |parts| &&
                        forall i :: 0 <= i < |parts| ==> ParseByteToken(parts[i]) == Some(r.value[i])
  {
    if |parts| == 0 then Some([])
    else
      var head := ParseByteToken(parts[0]);
      var rest := ParseByteTokens(parts[1..]);
      if head.Some? && rest.Some? then Some([head.value] + rest.value)
      else
        assert rest.None? ==> exists i :: 1 <= i < |parts| && !ParseByteToken(parts[i]).Some? by {
          if rest.None? {
            var i :| 0 <= i < |parts[1..]| && !ParseByteToken(parts[1..][i]).Some?;
            assert !ParseByteToken(parts[i + 1]).Some?;
          }
        }
        None
  }

  /** `byteString.Split(new[] { ' ', ',' }, StringSplitOptions.RemoveEmptyEntries)`. */
  function ByteStringTokens(s: string): (parts: seq<string>)
    ensures forall k :: 0 <= k < |parts| ==> |parts[k]| > 0
  {
    NonEmpty(Split(s, {' ', ','}))
  }

  function ParseByteString(s: string): Option<seq<Byte>> {
    ParseByteTokens(ByteStringTokens(s))
  }

  /** The bytes as `X2` digit pairs. */
  function HexBytes(data: seq<Byte>): (parts: seq<string>)
    ensures |parts| == |data|
    ensures forall i :: 0 <= i < |data| ==> parts[i] == HexByte(data[i])
  {
    seq(|data|, i requires 0 <= i < |data| => HexByte(data[i]))
  }

  lemma {:induction false} ByteTokenRoundTrip(b: Byte)
    ensures ParseByteToken(HexByte(b)) == Some(b)
  {
    var s := HexByte(b);
    assert !HasHexPrefix(s);
    assert TrimNumberWhite(s) == s;
  }

  /** A byte list written as space-separated hex pairs parses back to the same bytes. */
  lemma {:induction false} ByteStringRoundTrip(data: seq<Byte>)
    requires |data| >= 1
    ensures ParseByteString(JoinWith(HexBytes(data), ' ')) == Some(data)
  {
    var parts := HexBytes(data);
    SplitJoin(parts, ' ', {' ', ','});
    assert ByteStringTokens(JoinWith(parts, ' ')) == parts;
    forall i | 0 <= i < |data|
      ensures ParseByteToken(parts[i]) == Some(data[i])
    {
      ByteTokenRoundTrip(data[i]);
    }
    var r := ParseByteTokens(parts);
    assert r.Some?;
    assert r.value == data;
  }

  // ---- WriteMemToAddress ----

  /** What `WriteMemToAddress` reports; the message text is not modelled. */
  datatype WriteReport =
    | ByteStringEmpty
    | InvalidAddress
    | BadByte
    | NoBytes
    | Wrote(address: U64, data: seq<Byte>)
    | WriteFailed(shownAddress: nat)

  /** The checks before the write: an error report, or the parsed address and data. */
  datatype WritePlan = Refused(report: WriteReport) | Ready(address: U64, data: seq<Byte>)

  function PlanWrite(address: string, byteString: string): (p: WritePlan)
    ensures p.Ready? <==> !IsBlank(byteString) && ParseAddressText(address).Some? &&
                          ParseByteString(byteString).Some? && |ParseByteString(byteString).value| > 0
    ensures p.Ready? ==> p.address == ParseAddressText(address).value && p.data == ParseByteString(byteString).value
    ensures p.Refused? ==> !p.report.Wrote? && !p.report.WriteFailed?
  {
    if IsBlank(byteString) then Refused(ByteStringEmpty)
    else match ParseAddressText(address)
      case None => Refused(InvalidAddress)
      case Some(a) =>
        match ParseByteString(byteString)
        case None => Refused(BadByte)
        case Some(data) => if |data| == 0 then Refused(NoBytes) else Ready(a, data)
  }

  /** `WriteMemToAddress(address, byteString)`. The failure message shows the address
      cast to 32 bits. */
  method WriteMemToAddress(dbg: Debugger, address: string, byteString: string) returns (report: WriteReport)
    modifies dbg
    ensures PlanWrite(address, byteString).Refused? ==>
              report == PlanWrite(address, byteString).report && dbg.state == old(dbg.state)
    ensures PlanWrite(address, byteString).Ready? ==>
              var a := PlanWrite(address, byteString).address;
              var data := PlanWrite(address, byteString).data;
              var size := |data| % U32_LIMIT;
              var ok := Mapped(old(dbg.state).memory, a, size);
              report == (if ok then Wrote(a, data) else WriteFailed(a % U32_LIMIT)) &&
              dbg.state == if ok then old(dbg.state).(memory := Write(old(dbg.state).memory, a, data[..size]))
                           else old(dbg.state)
  {
    var plan := PlanWrite(address, byteString);
    if plan.Refused? {
      return plan.report;
    }
    var ok := WriteMemory(dbg, plan.address, plan.data);
    if ok {
      report := Wrote(plan.address, plan.data);
    } else {
      report := WriteFailed(plan.address % U32_LIMIT);
    }
  }

  /** An address and a byte list written in the documented form are accepted whole. */
  lemma {:induction false} PlanWriteRoundTrip(a: U64, data: seq<Byte>)
    requires |data| >= 1
    ensures PlanWrite("0x" + HexFixed(a, 16), JoinWith(HexBytes(data), ' ')) == Ready(a, data)
  {
    var bs := JoinWith(HexBytes(data), ' ');
    AddressRoundTrip(a);
    ByteStringRoundTrip(data);
    assert bs[..2] == HexByte(data[0]) by {
      JoinStartsWithFirst(HexBytes(data), ' ');
    }
    assert !IsWhiteSpace(bs[0]);
  }

  lemma {:induction false} JoinStartsWithFirst(parts: seq<string>, c: char)
    requires |parts| >= 1
    ensures |JoinWith(parts, c)| >= |parts[0]| && JoinWith(parts, c)[..|parts[0]|] == parts[0]
  {
    if |parts| > 1 {
      assert JoinWith(parts, c) == parts[0] + ([c] + JoinWith(parts[1..], c));
    }
  }

  // ---- PatchWithNops ----

  const DEFAULT_NOP_COUNT: I32 := 7

  /** `Enumerable.Repeat((byte)0x90, n)`. */
  function NopSled(n: nat): (nops: seq<Byte>)
    ensures |nops| == n && forall i :: 0 <= i < n ==> nops[i] == 0x90
  {
    seq(n, _ => 0x90)
  }

  /** A call that returns a value, or one that throws out of the command. */
  datatype PatchOutcome = Returned(success: bool) | Threw

  /** `PatchWithNops(addressStr, nopCount)`: a bad address returns false; a negative
      count throws from `Enumerable.Repeat`; otherwise the sled is written. */
  method PatchWithNops(dbg: Debugger, addressStr: string, nopCount: I32) returns (outcome: PatchOutcome)
    modifies dbg
    ensures ParseAddressText(addressStr).None? ==> outcome == Returned(false) && dbg.state == old(dbg.state)
    ensures ParseAddressText(addressStr).Some? && nopCount < 0 ==> outcome == Threw && dbg.state == old(dbg.state)
    ensures ParseAddressText(addressStr).Some? && nopCount >= 0 ==>
              var a := ParseAddressText(addressStr).value;
              var ok := Mapped(old(dbg.state).memory, a, nopCount);
              outcome == Returned(ok) &&
              dbg.state == if ok then old(dbg.state).(memory := Write(old(dbg.state).memory, a, NopSled(nopCount)))
                           else old(dbg.state)
  {
    var parsed := ParseAddressText(addressStr);
    if parsed.None? {
      return Returned(false);
    }
    if nopCount < 0 {
      return Threw;
    }
    var nops := NopSled(nopCount);
    assert |nops| % U32_LIMIT == |nops| && nops[..|nops|] == nops;
    var ok := WriteMemory(dbg, parsed.value, nops);
    outcome := Returned(ok);
  }

  /** After a successful patch the range reads back as `0x90` bytes and every other
      byte is as before. */
  lemma {:induction false} NopPatchEffect(mem: Memory, a: U64, n: nat)
    requires Mapped(mem, a, n)
    ensures var m := Write(mem, a, NopSled(n));
            m.Keys == mem.Keys &&
            (forall x :: a <= x < a + n ==> m[x] == 0x90) &&
            (forall x :: x in mem && !(a <= x < a + n) ==> m[x] == mem[x])
  {
    var m := Write(mem, a, NopSled(n));
    forall x | a <= x < a + n
      ensures m[x] == 0x90
    {
      assert Read(m, a, n).value[x - a] == NopSled(n)[x - a];
    }
  }
}
