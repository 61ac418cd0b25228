/** Machine-level vocabulary shared by the whole model: bytes, 64-bit words with
    unchecked (wrapping) arithmetic, the debuggee's address space as a partial map,
    little-endian decoding and hexadecimal text. */
module Prelude {

  datatype Option<T> = None | Some(value: T)

  /** One byte of debuggee memory. */
  type Byte = b: int | 0 <= b < 0x100

  const U64_LIMIT: int := 0x1_0000_0000_0000_0000

  /** A pointer-sized unsigned word (`nuint`, `ulong`) of an x64 target. */
  type U64 = n: int | 0 <= n < U64_LIMIT

  /** C# `nuint` arithmetic is unchecked: results wrap modulo 2^64. */
  function Wrap(n: int): U64 {
    n % U64_LIMIT
  }

  lemma WrapInRange(n: int)
    requires 0 <= n < U64_LIMIT
    ensures Wrap(n) == n
  {
  }

  /** The address space the engine exposes: a partial map from address to byte. */
  type Memory = map<int, Byte>

  /** Every byte of `[addr, addr + len)` is mapped. */
  predicate Mapped(mem: Memory, addr: int, len: nat) {
    forall a :: addr <= a < addr + len ==> a in mem
  }

  /** The engine's read primitive: fails when any byte of the range is unmapped. */
  function Read(mem: Memory, addr: int, len: nat): (r: Option<seq<Byte>>)
    ensures r.Some? <==> Mapped(mem, addr, len)
    ensures r.Some? ==> |r.value| == len && forall i :: 0 <= i < len ==> r.value[i] == mem[addr + i]
  {
    if Mapped(mem, addr, len) then
      Some(seq(len, i requires 0 <= i < len && addr + i in mem => mem[addr + i]))
    else
      None
  }

  /** The engine's write primitive, on a range that is known to be mapped. */
  function Write(mem: Memory, addr: int, data: seq<Byte>): (m: Memory)
    requires Mapped(mem, addr, |data|)
    ensures m.Keys == mem.Keys
    ensures Read(m, addr, |data|) == Some(data)
    ensures forall a :: a in mem && !(addr <= a < addr + |data|) ==> m[a] == mem[a]
  {
    var m := map a | a in mem :: if addr <= a < addr + |data| then data[a - addr] else mem[a];
    assert Mapped(m, addr, |data|);
    assert Read(m, addr, |data|).value == data;
    m
  }

  function Pow256(n: nat): (p: nat)
    ensures p >= 1
  {
    if n == 0 then 1 else 0x100 * Pow256(n - 1)
  }

  /** `BitConverter.ToUInt64` on a little-endian x64 host. */
  function LittleEndian(bytes: seq<Byte>): nat {
    if |bytes| == 0 then 0 else bytes[0] + 0x100 * LittleEndian(bytes[1..])
  }

  lemma {:induction false} LittleEndianBound(bytes: seq<Byte>)
    ensures LittleEndian(bytes) < Pow256(|bytes|)
  {
    if |bytes| > 0 {
      LittleEndianBound(bytes[1..]);
      assert LittleEndian(bytes[1..]) + 1 <= Pow256(|bytes| - 1);
      calc {
        LittleEndian(bytes);
        bytes[0] + 0x100 * LittleEndian(bytes[1..]);
      < 0x100 + 0x100 * LittleEndian(bytes[1..]);
        0x100 * (LittleEndian(bytes[1..]) + 1);
      <= 0x100 * Pow256(|bytes| - 1);
      }
    }
  }

  /** Eight bytes read from memory, as one 64-bit word. */
  function ToU64(bytes: seq<Byte>): U64
    requires |bytes| == 8
  {
    LittleEndianBound(bytes);
    assert Pow256(8) == U64_LIMIT;
    LittleEndian(bytes)
  }

  /** An 8-byte read followed by `ToU64`, failing where the read fails. */
  function ReadU64(mem: Memory, addr: int): Option<U64> {
    match Read(mem, addr, 8)
    case None => None
    case Some(bytes) => Some(ToU64(bytes))
  }

  // ---- hexadecimal text ----

  predicate IsHexDigit(c: char) {
    '0' <= c <= '9' || 'a' <= c <= 'f' || 'A' <= c <= 'F'
  }

  function HexDigitValue(c: char): (d: nat)
    requires IsHexDigit(c)
    ensures d < 16
  {
    if '0' <= c <= '9' then c as int - '0' as int
    else if 'a' <= c <= 'f' then c as int - 'a' as int + 10
    else c as int - 'A' as int + 10
  }

  /** The upper-case digit that `X` formatting prints. */
  function UpperHexDigit(d: nat): (c: char)
    requires d < 16
    ensures IsHexDigit(c) && HexDigitValue(c) == d
  {
    if d < 10 then ('0' as int + d) as char else ('A' as int + d - 10) as char
  }

  /** Value of a string made only of hex digits, most significant first. */
  function HexValue(s: string): nat
    requires forall i :: 0 <= i < |s| ==> IsHexDigit(s[i])
  {
    if |s| == 0 then 0 else 16 * HexValue(s[..|s| - 1]) + HexDigitValue(s[|s| - 1])
  }

  /** `v` printed with `X<width>`: exactly `width` upper-case digits (v < 16^width). */
  function HexFixed(v: nat, width: nat): (s: string)
    ensures |s| == width
    ensures forall i :: 0 <= i < |s| ==> IsHexDigit(s[i])
  {
    if width == 0 then "" else HexFixed(v / 16, width - 1) + [UpperHexDigit(v % 16)]
  }

  function Pow16(n: nat): (p: nat)
    ensures p >= 1
  {
    if n == 0 then 1 else 16 * Pow16(n - 1)
  }

  lemma Pow16Sixteen()
    ensures Pow16(16) == U64_LIMIT
  {
    assert Pow16(4) == 0x1_0000;
    assert Pow16(8) == 0x1_0000_0000 by {
      assert Pow16(8) == 16 * 16 * 16 * 16 * Pow16(4);
    }
    assert Pow16(12) == 0x1_0000_0000_0000 by {
      assert Pow16(12) == 16 * 16 * 16 * 16 * Pow16(8);
    }
    assert Pow16(16) == 16 * 16 * 16 * 16 * Pow16(12);
  }

  /** Parsing the fixed-width rendering gives the value back. */
  lemma {:induction false} HexFixedValue(v: nat, width: nat)
    requires v < Pow16(width)
    ensures HexValue(HexFixed(v, width)) == v
  {
    if width > 0 {
      var s := HexFixed(v, width);
      HexFixedValue(v / 16, width - 1);
      assert s[..|s| - 1] == HexFixed(v / 16, width - 1);
    }
  }
}
