/** The .NET string and number-parsing behaviour the commands rely on: `Split`,
    `Replace`, ordinal case-insensitive comparison, white-space tests, and the two
    hexadecimal parsers (`NumberStyles.HexNumber` and `Convert.ToXxx(s, 16)`). */
module Text {
  import opened Prelude

  // ---- white space ----

  /** White space that `NumberStyles.AllowLeadingWhite`/`AllowTrailingWhite` skip. */
  predicate IsNumberWhite(c: char) {
    0x09 <= c as int <= 0x0D || c == ' '
  }

  /** `char.IsWhiteSpace`, the test behind `string.IsNullOrWhiteSpace`. */
  predicate IsWhiteSpace(c: char) {
    var n := c as int;
    0x09 <= n <= 0x0D || n == 0x20 || n == 0x85 || n == 0xA0 || n == 0x1680
    || 0x2000 <= n <= 0x200A || n == 0x2028 || n == 0x2029 || n == 0x202F
    || n == 0x205F || n == 0x3000
  }

  predicate IsBlank(s: string) {
    forall i :: 0 <= i < |s| ==> IsWhiteSpace(s[i])
  }

  /** `s` without its leading and trailing number white space. */
  function TrimNumberWhite(s: string): (t: string)
    ensures |t| <= |s|
    ensures |t| > 0 ==> !IsNumberWhite(t[0]) && !IsNumberWhite(t[|t| - 1])
    ensures (|s| == 0 || (!IsNumberWhite(s[0]) && !IsNumberWhite(s[|s| - 1]))) ==> t == s
  {
    if |s| > 0 && IsNumberWhite(s[0]) then TrimNumberWhite(s[1..])
    else if |s| > 0 && IsNumberWhite(s[|s| - 1]) then TrimNumberWhite(s[..|s| - 1])
    else s
  }

  /** Everything of `s` before `i` and from `j` on is number white space. */
  predicate WhiteOutside(s: string, i: int, j: int) {
    0 <= i <= j <= |s| &&
    (forall k :: 0 <= k < i ==> IsNumberWhite(s[k])) &&
    (forall k :: j <= k < |s| ==> IsNumberWhite(s[k]))
  }

  lemma WhiteOutsideLeading(s: string, i: int, j: int)
    requires |s| > 0 && IsNumberWhite(s[0]) && WhiteOutside(s[1..], i, j)
    ensures WhiteOutside(s, i + 1, j + 1) && s[1..][i..j] == s[i + 1..j + 1]
  {
    forall k | 0 < k < i + 1 ensures IsNumberWhite(s[k]) {
      assert s[k] == s[1..][k - 1];
    }
    forall k | j + 1 <= k < |s| ensures IsNumberWhite(s[k]) {
      assert s[k] == s[1..][k - 1];
    }
  }

  lemma WhiteOutsideTrailing(s: string, i: int, j: int)
    requires |s| > 0 && IsNumberWhite(s[|s| - 1]) && WhiteOutside(s[..|s| - 1], i, j)
    ensures WhiteOutside(s, i, j) && s[..|s| - 1][i..j] == s[i..j]
  {
    forall k | 0 <= k < i ensures IsNumberWhite(s[k]) {
      assert s[k] == s[..|s| - 1][k];
    }
    forall k | j <= k < |s| - 1 ensures IsNumberWhite(s[k]) {
      assert s[k] == s[..|s| - 1][k];
    }
  }

  /** Trimming removes only number white space, and only at the two ends: the result
      is a slice of `s` with nothing but number white space before and after it. */
  lemma {:induction false} TrimNumberWhiteSlice(s: string)
    ensures exists i, j :: WhiteOutside(s, i, j) && TrimNumberWhite(s) == s[i..j]
    decreases |s|
  {
    if |s| > 0 && IsNumberWhite(s[0]) {
      TrimNumberWhiteSlice(s[1..]);
      var i, j :| WhiteOutside(s[1..], i, j) && TrimNumberWhite(s[1..]) == s[1..][i..j];
      WhiteOutsideLeading(s, i, j);
    } else if |s| > 0 && IsNumberWhite(s[|s| - 1]) {
      TrimNumberWhiteSlice(s[..|s| - 1]);
      var i, j :| WhiteOutside(s[..|s| - 1], i, j) && TrimNumberWhite(s[..|s| - 1]) == s[..|s| - 1][i..j];
      WhiteOutsideTrailing(s, i, j);
    } else {
      assert WhiteOutside(s, 0, |s|) && s[0..|s|] == s;
    }
  }

  // ---- case ----

  function UpperAscii(c: char): char {
    if 'a' <= c <= 'z' then (c as int - 32) as char else c
  }

  /** `string.Equals(a, b, StringComparison.OrdinalIgnoreCase)` on ASCII letters. */
  predicate EqualsIgnoreCase(a: string, b: string) {
    |a| == |b| && forall i :: 0 <= i < |a| ==> UpperAscii(a[i]) == UpperAscii(b[i])
  }

  /** `s.StartsWith("0x", StringComparison.OrdinalIgnoreCase)`. */
  predicate HasHexPrefix(s: string) {
    |s| >= 2 && s[0] == '0' && UpperAscii(s[1]) == 'X'
  }

  // ---- Replace and Split ----

  /** `s.Replace("0x", "")`: every occurrence, scanning left to right without overlap
      (case-sensitive, so "0X" stays). */
  function RemoveHexMarkers(s: string): (r: string)
    ensures |r| <= |s|
    ensures (forall i :: 0 <= i < |s| ==> s[i] != 'x') ==> r == s
  {
    if |s| >= 2 && s[0] == '0' && s[1] == 'x' then RemoveHexMarkers(s[2..])
    else if |s| == 0 then ""
    else [s[0]] + RemoveHexMarkers(s[1..])
  }

  /** `s.Split(seps)`: the pieces between separators, empty ones included. */
  function Split(s: string, seps: set<char>): (parts: seq<string>)
    ensures |parts| >= 1
    ensures forall k :: 0 <= k < |parts| ==> forall i :: 0 <= i < |parts[k]| ==> parts[k][i] !in seps
  {
    if |s| == 0 then [""]
    else
      var rest := Split(s[1..], seps);
      if s[0] in seps then [""] + rest
      else [[s[0]] + rest[0]] + rest[1..]
  }

  /** `string.Join(sep, parts)`. */
  function JoinWith(parts: seq<string>, sep: char): string {
    if |parts| == 0 then ""
    else if |parts| == 1 then parts[0]
    else parts[0] + [sep] + JoinWith(parts[1..], sep)
  }

  predicate Avoids(t: string, c: char) {
    forall i :: 0 <= i < |t| ==> t[i] != c
  }

  /** One piece without the separator splits off whole before the rest. */
  lemma {:induction false} SplitFirstPiece(a: string, rest: string, c: char, seps: set<char>)
    requires c in seps
    requires forall i :: 0 <= i < |a| ==> a[i] !in seps
    ensures Split(a + [c] + rest, seps) == [a] + Split(rest, seps)
  {
    if |a| > 0 {
      SplitFirstPiece(a[1..], rest, c, seps);
      assert (a + [c] + rest)[1..] == a[1..] + [c] + rest;
      assert (a + [c] + rest)[0] == a[0] && a[0] !in seps;
      assert [a[0]] + a[1..] == a;
    } else {
      assert ([c] + rest)[1..] == rest;
    }
  }

  lemma {:induction false} SplitWhole(a: string, seps: set<char>)
    requires forall i :: 0 <= i < |a| ==> a[i] !in seps
    ensures Split(a, seps) == [a]
  {
    if |a| > 0 {
      SplitWhole(a[1..], seps);
      assert [a[0]] + a[1..] == a;
    }
  }

  /** Splitting a join on the same separator gives the pieces back. */
  lemma {:induction false} SplitJoin(parts: seq<string>, c: char, seps: set<char>)
    requires |parts| >= 1 && c in seps
    requires forall k :: 0 <= k < |parts| ==> forall i :: 0 <= i < |parts[k]| ==> parts[k][i] !in seps
    ensures Split(JoinWith(parts, c), seps) == parts
  {
    if |parts| == 1 {
      SplitWhole(parts[0], seps);
    } else {
      SplitJoin(parts[1..], c, seps);
      SplitFirstPiece(parts[0], JoinWith(parts[1..], c), c, seps);
      assert [parts[0]] + parts[1..] == parts;
    }
  }

  /** `StringSplitOptions.RemoveEmptyEntries`. */
  function NonEmpty(parts: seq<string>): (r: seq<string>)
    ensures |r| <= |parts|
    ensures forall k :: 0 <= k < |r| ==> |r[k]| > 0
    ensures (forall k :: 0 <= k < |parts| ==> |parts[k]| > 0) ==> r == parts
    ensures |parts| == 1 ==> (r == [] <==> parts[0] == "")
  {
    if |parts| == 0 then []
    else if |parts[0]| == 0 then NonEmpty(parts[1..])
    else [parts[0]] + NonEmpty(parts[1..])
  }

  /** Removing empty entries is an in-order filter: it distributes over
      concatenation, and one entry is kept exactly when it is not empty. */
  lemma {:induction false} NonEmptyAppend(a: seq<string>, b: seq<string>)
    ensures NonEmpty(a + b) == NonEmpty(a) + NonEmpty(b)
    decreases |a|
  {
    if |a| > 0 {
      NonEmptyAppend(a[1..], b);
      assert (a + b)[1..] == a[1..] + b;
    } else {
      assert a + b == b;
    }
  }

  // ---- numbers ----

  predicate AllHex(s: string) {
    forall i :: 0 <= i < |s| ==> IsHexDigit(s[i])
  }

  /** Parsing with `NumberStyles.HexNumber`: optional surrounding white space, then
      one or more hex digits (no prefix, no sign) whose value is below `bound`. */
  function ParseHexNumber(s: string, bound: nat): (r: Option<nat>)
    ensures r.Some? ==> r.value < bound
  {
    var t := TrimNumberWhite(s);
    if |t| > 0 && AllHex(t) && HexValue(t) < bound then Some(HexValue(t)) else None
  }

  /** `Convert.ToByte(s, 16)` / `Convert.ToUInt64(s, 16)`: an optional "0x" or "0X"
      prefix, then one or more hex digits and nothing else, below `bound`. */
  function ConvertHex(s: string, bound: nat): (r: Option<nat>)
    ensures r.Some? ==> r.value < bound
  {
    var t := if HasHexPrefix(s) then s[2..] else s;
    if |t| > 0 && AllHex(t) && HexValue(t) < bound then Some(HexValue(t)) else None
  }

  predicate IsDecimalDigit(c: char) {
    '0' as int <= c as int <= '9' as int
  }

  function DecimalValue(s: string): nat
    requires forall i :: 0 <= i < |s| ==> IsDecimalDigit(s[i])
  {
    if |s| == 0 then 0
    else
      var last := s[|s| - 1];
      assert IsDecimalDigit(last);
      10 * DecimalValue(s[..|s| - 1]) + (last as int - '0' as int)
  }

  /** `Convert.ToUInt64(s, 10)` on unsigned digit strings below `bound`. */
  function ConvertDecimal(s: string, bound: nat): (r: Option<nat>)
    ensures r.Some? ==> r.value < bound
  {
    if |s| > 0 && (forall i :: 0 <= i < |s| ==> IsDecimalDigit(s[i])) && DecimalValue(s) < bound
    then Some(DecimalValue(s)) else None
  }

  /** One byte as `X2` prints it. */
  function HexByte(b: Byte): (s: string)
    ensures |s| == 2 && AllHex(s) && HexValue(s) == b
    ensures forall i :: 0 <= i < 2 ==> s[i] != 'x' && !IsNumberWhite(s[i])
  {
    HexFixedValue(b, 2);
    HexFixed(b, 2)
  }

  /** The digits of a value printed with `X16` come back from `HexNumber` parsing. */
  lemma {:induction false} ParseHexFixed(v: U64)
    ensures ParseHexNumber(HexFixed(v, 16), U64_LIMIT) == Some(v)
  {
    var s := HexFixed(v, 16);
    Pow16Sixteen();
    HexFixedValue(v, 16);
    assert TrimNumberWhite(s) == s;
  }
}
