/** `Encoding.BigEndianUnicode`: UTF-16, high byte first, no byte-order
    mark. GetBytes writes a scalar above U+FFFF as a surrogate pair;
    GetString reads back pairs, and turns a lone surrogate or a trailing
    odd byte into U+FFFD, as .NET's replacement fallback does. */
module Utf16 {
  import opened Wrappers

  const ReplacementCharacter: char := '�'

  predicate IsHighSurrogate(u: int) { 0xD800 <= u < 0xDC00 }
  predicate IsLowSurrogate(u: int) { 0xDC00 <= u < 0xE000 }

  /** The two bytes of one code unit. */
  function UnitBytes(u: CodeUnit): seq<byte> {
    [u / 0x100, u % 0x100]
  }

  /** The code unit two bytes stand for, high byte first. */
  function UnitOf(hi: byte, lo: byte): CodeUnit {
    hi as int * 0x100 + lo
  }

  /** One scalar: a single code unit below U+10000, otherwise a high
      surrogate then a low surrogate that together carry the scalar. */
  function EncodeScalar(c: char): (bytes: seq<byte>)
    ensures |bytes| == 2 || |bytes| == 4
    ensures c as int < 0x1_0000 <==> |bytes| == 2
    ensures c as int < 0x1_0000 ==> UnitOf(bytes[0], bytes[1]) == c as int
    ensures |bytes| == 4 ==>
      && IsHighSurrogate(UnitOf(bytes[0], bytes[1]))
      && IsLowSurrogate(UnitOf(bytes[2], bytes[3]))
      && 0x1_0000 + (UnitOf(bytes[0], bytes[1]) - 0xD800) * 0x400 + (UnitOf(bytes[2], bytes[3]) - 0xDC00) == c as int
  {
    var cp := c as int;
    if cp < 0x1_0000 then
      UnitBytes(cp)
    else
      var v := cp - 0x1_0000;
      UnitBytes(0xD800 + v / 0x400) + UnitBytes(0xDC00 + v % 0x400)
  }

  /** The number of UTF-16 code units of a text: one per character below
      U+10000, two (a surrogate pair) for any other. */
  function CodeUnitCount(s: string): (n: nat)
    ensures |s| <= n <= 2 * |s|
  {
    if s == [] then 0 else (if s[0] as int < 0x1_0000 then 1 else 2) + CodeUnitCount(s[1..])
  }

  /** `Encoding.BigEndianUnicode.GetBytes`: two bytes per code unit, one
      or two code units per character. */
  function GetBytes(s: string): (b: seq<byte>)
    ensures |b| == 2 * CodeUnitCount(s)
    ensures 2 * |s| <= |b| <= 4 * |s|
  {
    if s == [] then [] else EncodeScalar(s[0]) + GetBytes(s[1..])
  }

  /** `Encoding.BigEndianUnicode.GetString`: at most one character per
      two bytes, rounded up for a trailing odd byte. */
  function GetString(b: seq<byte>): (r: string)
    ensures |r| <= (|b| + 1) / 2
    ensures |b| > 0 ==> |r| > 0
    decreases |b|
  {
    if |b| == 0 then []
    else if |b| == 1 then [ReplacementCharacter]
    else
      var u := UnitOf(b[0], b[1]);
      if IsHighSurrogate(u) && |b| >= 4 && IsLowSurrogate(UnitOf(b[2], b[3])) then
        var lo := UnitOf(b[2], b[3]);
        [(0x1_0000 + (u - 0xD800) * 0x400 + (lo - 0xDC00)) as char] + GetString(b[4..])
      else if IsHighSurrogate(u) || IsLowSurrogate(u) then
        [ReplacementCharacter] + GetString(b[2..])
      else
        [u as char] + GetString(b[2..])
  }

  lemma GetStringOfEncodedScalar(c: char, rest: seq<byte>)
    ensures GetString(EncodeScalar(c) + rest) == [c] + GetString(rest)
  {
    var cp := c as int;
    var b := EncodeScalar(c) + rest;
    if cp < 0x1_0000 {
      assert UnitOf(b[0], b[1]) == cp;
      assert b[2..] == rest;
    } else {
      var v := cp - 0x1_0000;
      var hi, lo := 0xD800 + v / 0x400, 0xDC00 + v % 0x400;
      assert UnitOf(b[0], b[1]) == hi;
      assert UnitOf(b[2], b[3]) == lo;
      assert b[4..] == rest;
      assert 0x1_0000 + (hi - 0xD800) * 0x400 + (lo - 0xDC00) == cp;
    }
  }

  /** Reading back what GetBytes wrote gives the same text. */
  lemma {:induction false} GetStringGetBytes(s: string)
    ensures GetString(GetBytes(s)) == s
  {
    if s != [] {
      GetStringOfEncodedScalar(s[0], GetBytes(s[1..]));
      GetStringGetBytes(s[1..]);
      assert [s[0]] + s[1..] == s;
    }
  }
}
