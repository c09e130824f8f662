/** `GetEncoding`: which .NET text encoding a `name` record's bytes are
    read and written with, chosen from its platform and encoding ids as the
    OpenType `name` table defines them. */
module NameEncodings {
  import opened Wrappers
  import Utf16

  /** The encodings GetEncoding can return. */
  datatype TextEncoding =
    | BigEndianUnicode  // UTF-16, big-endian
    | UTF32BigEndian    // UTF-32, big-endian, no byte-order mark
    | ShiftJIS          // code page Shift_JIS
    | UTF8

  // Platform ids.
  const PlatformUnicode: int := 0
  const PlatformMacintosh: int := 1
  const PlatformWindows: int := 3

  // Encoding ids, per platform.
  const UnicodeEncoding2_0: int := 4   // Unicode 2.0 and later, full repertoire
  const MacintoshJapanese: int := 1
  const WindowsUnicodeUCS2: int := 1
  const WindowsShiftJIS: int := 2
  const WindowsUnicodeUCS4: int := 10

  /** The encoding of a name record. The language id is accepted but never
      consulted; unrecognised combinations fall back to UTF-8. */
  function GetEncoding(platformId: int, encodingId: int, languageId: int): (e: TextEncoding)
    ensures e == BigEndianUnicode <==>
              (platformId == PlatformWindows && encodingId == WindowsUnicodeUCS2)
              || (platformId == PlatformUnicode && encodingId != UnicodeEncoding2_0)
    ensures e == UTF32BigEndian <==>
              (platformId == PlatformWindows && encodingId == WindowsUnicodeUCS4)
              || (platformId == PlatformUnicode && encodingId == UnicodeEncoding2_0)
    ensures e == ShiftJIS <==>
              (platformId == PlatformWindows && encodingId == WindowsShiftJIS)
              || (platformId == PlatformMacintosh && encodingId == MacintoshJapanese)
    ensures e == UTF8 <==>
              platformId !in {PlatformWindows, PlatformMacintosh, PlatformUnicode}
              || (platformId == PlatformWindows
                  && encodingId !in {WindowsUnicodeUCS2, WindowsUnicodeUCS4, WindowsShiftJIS})
              || (platformId == PlatformMacintosh && encodingId != MacintoshJapanese)
  {
    if platformId == PlatformWindows then
      if encodingId == WindowsUnicodeUCS2 then BigEndianUnicode
      else if encodingId == WindowsUnicodeUCS4 then UTF32BigEndian
      else if encodingId == WindowsShiftJIS then ShiftJIS
      else UTF8
    else if platformId == PlatformMacintosh then
      if encodingId == MacintoshJapanese then ShiftJIS else UTF8
    else if platformId == PlatformUnicode then
      if encodingId == UnicodeEncoding2_0 then UTF32BigEndian else BigEndianUnicode
    else
      UTF8
  }

  /** The language id never changes the choice. */
  lemma EncodingIgnoresLanguage(platformId: int, encodingId: int, l1: int, l2: int)
    ensures GetEncoding(platformId, encodingId, l1) == GetEncoding(platformId, encodingId, l2)
  {
  }

  /** .NET's `Encoding.GetString` / `GetBytes` for the encodings other than
      UTF-16BE, whose byte-level behaviour is not part of this model. */
  datatype Codecs = Codecs(
    getString: (TextEncoding, seq<byte>) -> string,
    getBytes: (TextEncoding, string) -> seq<byte>)

  /** `encoding.GetString(bytes)`; UTF-16BE is written out, the other
      encodings are the platform's. */
  function GetString(codecs: Codecs, e: TextEncoding, bytes: seq<byte>): (r: string)
    ensures e == BigEndianUnicode ==> r == Utf16.GetString(bytes)
    ensures e != BigEndianUnicode ==> r == codecs.getString(e, bytes)
  {
    if e == BigEndianUnicode then Utf16.GetString(bytes) else codecs.getString(e, bytes)
  }

  /** `encoding.GetBytes(text)`; UTF-16BE is written out, the other
      encodings are the platform's. */
  function GetBytes(codecs: Codecs, e: TextEncoding, text: string): (r: seq<byte>)
    ensures e == BigEndianUnicode ==> r == Utf16.GetBytes(text)
    ensures e != BigEndianUnicode ==> r == codecs.getBytes(e, text)
  {
    if e == BigEndianUnicode then Utf16.GetBytes(text) else codecs.getBytes(e, text)
  }

  /** A name record in UTF-16BE reads back as the text written into it,
      whatever the platform codecs do. */
  lemma {:induction false} Utf16RoundTrip(codecs: Codecs, text: string)
    ensures GetString(codecs, BigEndianUnicode, GetBytes(codecs, BigEndianUnicode, text)) == text
  {
    Utf16.GetStringGetBytes(text);
  }
}
