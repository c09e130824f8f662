/** UTF-8, as `Uri.EscapeDataString` uses it to turn a character into the
    bytes it percent-encodes. Only well-formed text is modelled: a Dafny
    `char` is a Unicode scalar value, so there are no lone surrogates. */
module Utf8 {
  import opened Wrappers

  predicate IsContinuation(b: byte) {
    0x80 <= b < 0xC0
  }

  /** The UTF-8 form of one scalar value (1 to 4 bytes). */
  function EncodeScalar(c: char): (bytes: seq<byte>)
    ensures 1 <= |bytes| <= 4
    ensures |bytes| == 1 <==> (c as int) < 0x80
    ensures (c as int) < 0x80 ==> bytes == [c as int]
  {
    var cp := c as int;
    if cp < 0x80 then
      [cp]
    else if cp < 0x800 then
      [0xC0 + cp / 0x40, 0x80 + cp % 0x40]
    else if cp < 0x1_0000 then
      [0xE0 + cp / 0x1000, 0x80 + (cp / 0x40) % 0x40, 0x80 + cp % 0x40]
    else
      [0xF0 + cp / 0x4_0000, 0x80 + (cp / 0x1000) % 0x40, 0x80 + (cp / 0x40) % 0x40, 0x80 + cp % 0x40]
  }

  function Encode(s: string): seq<byte> {
    if s == [] then [] else EncodeScalar(s[0]) + Encode(s[1..])
  }

  /** Decodes the scalar value at the head of `b` and says how many bytes it
      took; rejects truncated sequences, bad continuation bytes, overlong
      forms, surrogates and values above U+10FFFF. */
  function DecodeScalar(b: seq<byte>): (r: Option<(char, nat)>)
    requires b != []
    ensures r.Some? ==> 1 <= r.value.1 <= |b|
  {
    var b0: int := b[0];
    if b0 < 0x80 then
      Some((b0 as char, 1))
    else if 0xC0 <= b0 < 0xE0 then
      if |b| < 2 || !IsContinuation(b[1]) then None
      else
        var cp := (b0 - 0xC0) * 0x40 + (b[1] as int - 0x80);
        if cp < 0x80 then None else Some((cp as char, 2))
    else if 0xE0 <= b0 < 0xF0 then
      if |b| < 3 || !IsContinuation(b[1]) || !IsContinuation(b[2]) then None
      else
        var cp := (b0 - 0xE0) * 0x1000 + (b[1] as int - 0x80) * 0x40 + (b[2] as int - 0x80);
        if cp < 0x800 || (0xD800 <= cp < 0xE000) then None else Some((cp as char, 3))
    else if 0xF0 <= b0 < 0xF8 then
      if |b| < 4 || !IsContinuation(b[1]) || !IsContinuation(b[2]) || !IsContinuation(b[3]) then None
      else
        var cp := (b0 - 0xF0) * 0x4_0000 + (b[1] as int - 0x80) * 0x1000 + (b[2] as int - 0x80) * 0x40 + (b[3] as int - 0x80);
        if cp < 0x1_0000 || 0x11_0000 <= cp then None else Some((cp as char, 4))
    else
      None
  }

  function Decode(b: seq<byte>): Option<string>
    decreases |b|
  {
    if b == [] then Some([])
    else
      match DecodeScalar(b)
      case None => None
      case Some((c, n)) =>
        match Decode(b[n..])
        case None => None
        case Some(rest) => Some([c] + rest)
  }

  lemma DecodeScalarOfEncode(c: char, rest: seq<byte>)
    ensures DecodeScalar(EncodeScalar(c) + rest) == Some((c, |EncodeScalar(c)|))
  {
    var cp := c as int;
    if cp < 0x80 {
    } else if cp < 0x800 {
      DecodeTwoBytes(c, rest);
    } else if cp < 0x1_0000 {
      DecodeThreeBytes(c, rest);
    } else {
      DecodeFourBytes(c, rest);
    }
  }

  /** Helper: `DecodeScalarOfEncode` for U+0080 .. U+07FF. */
  lemma DecodeTwoBytes(c: char, rest: seq<byte>)
    requires 0x80 <= c as int < 0x800
    ensures DecodeScalar(EncodeScalar(c) + rest) == Some((c, 2))
  {
    var cp := c as int;
    var b := EncodeScalar(c) + rest;
    assert b[0] == 0xC0 + cp / 0x40 && b[1] == 0x80 + cp % 0x40;
    assert (cp / 0x40) * 0x40 + cp % 0x40 == cp;
  }

  /** Helper: `DecodeScalarOfEncode` for U+0800 .. U+FFFF. */
  lemma DecodeThreeBytes(c: char, rest: seq<byte>)
    requires 0x800 <= c as int < 0x1_0000
    ensures DecodeScalar(EncodeScalar(c) + rest) == Some((c, 3))
  {
    var cp := c as int;
    var b := EncodeScalar(c) + rest;
    assert b[0] == 0xE0 + cp / 0x1000 && b[1] == 0x80 + (cp / 0x40) % 0x40 && b[2] == 0x80 + cp % 0x40;
    DivModSplit(cp);
  }

  /** Helper: `DecodeScalarOfEncode` for U+10000 .. U+10FFFF. */
  lemma DecodeFourBytes(c: char, rest: seq<byte>)
    requires 0x1_0000 <= c as int
    ensures DecodeScalar(EncodeScalar(c) + rest) == Some((c, 4))
  {
    var cp := c as int;
    var b := EncodeScalar(c) + rest;
    assert b[0] == 0xF0 + cp / 0x4_0000 && b[1] == 0x80 + (cp / 0x1000) % 0x40;
    assert b[2] == 0x80 + (cp / 0x40) % 0x40 && b[3] == 0x80 + cp % 0x40;
    DivModSplit(cp);
  }

  /** The base-64 digits of a code point put back together. */
  lemma DivModSplit(cp: nat)
    ensures (cp / 0x1000) * 0x1000 + ((cp / 0x40) % 0x40) * 0x40 + cp % 0x40 == cp
    ensures (cp / 0x4_0000) * 0x4_0000 + ((cp / 0x1000) % 0x40) * 0x1000
            + ((cp / 0x40) % 0x40) * 0x40 + cp % 0x40 == cp
  {
    var q1 := cp / 0x40;
    assert cp == q1 * 0x40 + cp % 0x40;
    var q2 := q1 / 0x40;
    assert q1 == q2 * 0x40 + q1 % 0x40;
    assert q2 == cp / 0x1000;
    var q3 := q2 / 0x40;
    assert q2 == q3 * 0x40 + q2 % 0x40;
    assert q3 == cp / 0x4_0000;
  }

  /** Decoding undoes encoding, for every string. */
  lemma {:induction false} DecodeEncode(s: string)
    ensures Decode(Encode(s)) == Some(s)
  {
    if s != [] {
      var head := EncodeScalar(s[0]);
      DecodeScalarOfEncode(s[0], Encode(s[1..]));
      assert (head + Encode(s[1..]))[|head|..] == Encode(s[1..]);
      DecodeEncode(s[1..]);
      assert [s[0]] + s[1..] == s;
    }
  }
}
