/** `Uri.EscapeDataString`: percent-encoding as in RFC 3986. The unreserved
    characters of section 2.3 are kept as they are; every other character
    is written as its UTF-8 bytes, each as `%` followed by two upper-case
    hexadecimal digits (section 2.1). */
module UriEscape {
  import opened Wrappers
  import Utf8

  /** ALPHA / DIGIT / "-" / "." / "_" / "~" (RFC 3986, section 2.3). */
  predicate IsUnreserved(c: char) {
    ('A' <= c <= 'Z') || ('a' <= c <= 'z') || ('0' <= c <= '9')
    || c == '-' || c == '.' || c == '_' || c == '~'
  }

  predicate IsUpperHexDigit(c: char) {
    ('0' <= c <= '9') || ('A' <= c <= 'F')
  }

  function HexDigit(n: nat): (c: char)
    requires n < 16
    ensures IsUpperHexDigit(c)
  {
    if n < 10 then ('0' as int + n) as char else ('A' as int + n - 10) as char
  }

  function HexValue(c: char): (n: nat)
    requires IsUpperHexDigit(c)
    ensures n < 16
  {
    if c <= '9' then c as int - '0' as int else c as int - 'A' as int + 10
  }

  /** The percent-encoded form of one octet: `%` and two hex digits. */
  function PercentEncodeByte(b: byte): string {
    ['%', HexDigit(b / 16), HexDigit(b % 16)]
  }

  function PercentEncodeBytes(bytes: seq<byte>): string {
    if bytes == [] then [] else PercentEncodeByte(bytes[0]) + PercentEncodeBytes(bytes[1..])
  }

  function EscapeChar(c: char): string {
    if IsUnreserved(c) then [c] else PercentEncodeBytes(Utf8.EncodeScalar(c))
  }

  /** The shape of every escaped string: a sequence of unreserved
      characters and `%XX` triplets. */
  predicate IsEscaped(r: string)
    decreases |r|
  {
    if r == [] then true
    else if IsUnreserved(r[0]) then IsEscaped(r[1..])
    else |r| >= 3 && r[0] == '%' && IsUpperHexDigit(r[1]) && IsUpperHexDigit(r[2]) && IsEscaped(r[3..])
  }

  /** `Uri.EscapeDataString(s)`. */
  function EscapeDataString(s: string): (r: string)
    ensures IsEscaped(r)
  {
    if s == [] then []
    else
      EscapedCharPrefix(s[0], EscapeDataString(s[1..]));
      EscapeChar(s[0]) + EscapeDataString(s[1..])
  }

  /** One unreserved character or one `%XX` triplet in front of an escaped
      string keeps it escaped. */
  lemma EscapedPrefix(t: string, r: string)
    requires IsEscaped(r)
    requires (|t| == 1 && IsUnreserved(t[0]))
          || (|t| == 3 && t[0] == '%' && IsUpperHexDigit(t[1]) && IsUpperHexDigit(t[2]))
    ensures IsEscaped(t + r)
  {
    var tr := t + r;
    assert tr[..|t|] == t;
    assert tr[|t|..] == r;
  }

  /** Percent-encoded octets in front of an escaped string keep it escaped. */
  lemma {:induction false} EncodedBytesPrefix(bytes: seq<byte>, r: string)
    requires IsEscaped(r)
    ensures IsEscaped(PercentEncodeBytes(bytes) + r)
  {
    if bytes == [] {
      assert PercentEncodeBytes(bytes) + r == r;
    } else {
      var t := PercentEncodeByte(bytes[0]);
      var tail := PercentEncodeBytes(bytes[1..]);
      EncodedBytesPrefix(bytes[1..], r);
      EscapedPrefix(t, tail + r);
      assert PercentEncodeBytes(bytes) == t + tail;
      assert (t + tail) + r == t + (tail + r);
    }
  }

  /** So does the escaped form of one character. */
  lemma EscapedCharPrefix(c: char, r: string)
    requires IsEscaped(r)
    ensures IsEscaped(EscapeChar(c) + r)
  {
    if IsUnreserved(c) {
      EscapedPrefix([c], r);
    } else {
      EncodedBytesPrefix(Utf8.EncodeScalar(c), r);
    }
  }

  /** An escaped string never contains `+`: `+` is a sub-delimiter, not
      an unreserved character, and `%XX` holds only `%` and hex digits. */
  lemma {:induction false} EscapedHasNoPlus(r: string)
    requires IsEscaped(r)
    ensures '+' !in r
    decreases |r|
  {
    if r != [] {
      if IsUnreserved(r[0]) {
        EscapedHasNoPlus(r[1..]);
        assert r == [r[0]] + r[1..];
      } else {
        EscapedHasNoPlus(r[3..]);
        assert r == r[..3] + r[3..];
      }
    }
  }

  /** Unreserved text comes out unchanged. */
  lemma {:induction false} EscapeKeepsUnreserved(s: string)
    requires forall i :: 0 <= i < |s| ==> IsUnreserved(s[i])
    ensures EscapeDataString(s) == s
  {
    if s != [] {
      EscapeKeepsUnreserved(s[1..]);
      assert [s[0]] + s[1..] == s;
    }
  }

  /** The octets an escaped string stands for: the reverse of the
      percent-encoding step (unreserved characters are ASCII). */
  function PercentDecode(r: string): Option<seq<byte>>
    decreases |r|
  {
    if r == [] then Some([])
    else if IsUnreserved(r[0]) then
      match PercentDecode(r[1..])
      case None => None
      case Some(rest) => Some([r[0] as int] + rest)
    else if |r| >= 3 && r[0] == '%' && IsUpperHexDigit(r[1]) && IsUpperHexDigit(r[2]) then
      match PercentDecode(r[3..])
      case None => None
      case Some(rest) => Some([HexValue(r[1]) * 16 + HexValue(r[2])] + rest)
    else None
  }

  /** The reverse of EscapeDataString: percent-decode, then UTF-8 decode. */
  function UnescapeDataString(r: string): Option<string> {
    match PercentDecode(r)
    case None => None
    case Some(bytes) => Utf8.Decode(bytes)
  }

  function Prepend(bytes: seq<byte>, rest: Option<seq<byte>>): Option<seq<byte>> {
    match rest
    case None => None
    case Some(tail) => Some(bytes + tail)
  }

  lemma {:induction false} PercentDecodeOfEncodedBytes(bytes: seq<byte>, rest: string)
    ensures PercentDecode(PercentEncodeBytes(bytes) + rest) == Prepend(bytes, PercentDecode(rest))
  {
    if bytes == [] {
      assert PercentEncodeBytes(bytes) + rest == rest;
      PrependNothing(PercentDecode(rest));
    } else {
      var b, later := bytes[0], bytes[1..];
      var tail := PercentEncodeBytes(later) + rest;
      assert PercentEncodeBytes(bytes) + rest == PercentEncodeByte(b) + tail;
      PercentDecodeOfEncodedByte(b, tail);
      PercentDecodeOfEncodedBytes(later, rest);
      PrependTwice([b], later, PercentDecode(rest));
      assert [b] + later == bytes;
    }
  }

  lemma PrependNothing(o: Option<seq<byte>>)
    ensures Prepend([], o) == o
  {
    if o.Some? {
      assert [] + o.value == o.value;
    }
  }

  lemma PrependTwice(a: seq<byte>, b: seq<byte>, o: Option<seq<byte>>)
    ensures Prepend(a, Prepend(b, o)) == Prepend(a + b, o)
  {
    if o.Some? {
      assert a + (b + o.value) == (a + b) + o.value;
    }
  }

  lemma PercentDecodeOfEncodedByte(b: byte, tail: string)
    ensures PercentDecode(PercentEncodeByte(b) + tail) == Prepend([b], PercentDecode(tail))
  {
    var r := PercentEncodeByte(b) + tail;
    assert r[0] == '%' && r[1] == HexDigit(b / 16) && r[2] == HexDigit(b % 16);
    assert r[3..] == tail;
    assert HexValue(HexDigit(b / 16)) * 16 + HexValue(HexDigit(b % 16)) == b;
  }

  lemma PercentDecodeOfEscapedChar(c: char, rest: string)
    ensures PercentDecode(EscapeChar(c) + rest) == Prepend(Utf8.EncodeScalar(c), PercentDecode(rest))
  {
    if IsUnreserved(c) {
      assert ([c] + rest)[1..] == rest;
    } else {
      PercentDecodeOfEncodedBytes(Utf8.EncodeScalar(c), rest);
    }
  }

  lemma {:induction false} PercentDecodeOfEscaped(s: string)
    ensures PercentDecode(EscapeDataString(s)) == Some(Utf8.Encode(s))
  {
    if s != [] {
      PercentDecodeOfEscapedChar(s[0], EscapeDataString(s[1..]));
      PercentDecodeOfEscaped(s[1..]);
    }
  }

  /** Escaping loses nothing: unescaping gives back the original text. */
  lemma UnescapeEscape(s: string)
    ensures UnescapeDataString(EscapeDataString(s)) == Some(s)
  {
    PercentDecodeOfEscaped(s);
    Utf8.DecodeEncode(s);
  }

  /** Hence two different texts never escape to the same string. */
  lemma EscapeInjective(s: string, t: string)
    requires EscapeDataString(s) == EscapeDataString(t)
    ensures s == t
  {
    UnescapeEscape(s);
    UnescapeEscape(t);
  }
}
