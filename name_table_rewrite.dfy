/** The family-name rewrite of `SubsetFont`: every name record with name
    ID 1 (font family) or 16 (typographic family) of the original font is
    decoded with the encoding of its platform, given the subset suffix and
    written back, under the same key, into the name table builder of the
    subset font. */
module NameTableRewrite {
  import opened Wrappers
  import opened FontModel
  import opened NameEncodings
  import opened FamilyNames
  import Utf16

  const FontFamilyName: nat := 1
  const PreferredFamily: nat := 16

  predicate IsFamilyName(nameId: nat) {
    nameId == FontFamilyName || nameId == PreferredFamily
  }

  /** The bytes a family-name record is given: decode, append the subset
      suffix, encode again, all with the record's own encoding. */
  function NewNameBytes(codecs: Codecs, key: NameKey, bytes: seq<byte>, suffix: Option<string>): seq<byte> {
    var encoding := GetEncoding(key.platformId, key.encodingId, key.languageId);
    GetBytes(codecs, encoding, GetSubsetFontFamilyName(GetString(codecs, encoding, bytes), suffix))
  }

  /** The new bytes of each original record, as `SubsetFont` computes them. */
  function Renamer(codecs: Codecs, suffix: Option<string>): NameEntry -> seq<byte> {
    (entry: NameEntry) => NewNameBytes(codecs, entry.key, entry.bytes, suffix)
  }

  /** The records after the original entries are visited in order, each
      family-name entry writing `rename(entry)` under its key. */
  function Renamed(records: map<NameKey, seq<byte>>, entries: seq<NameEntry>, rename: NameEntry -> seq<byte>)
    : map<NameKey, seq<byte>>
  {
    if |entries| == 0 then records
    else
      var prior := Renamed(records, entries[..|entries| - 1], rename);
      var entry := entries[|entries| - 1];
      if IsFamilyName(entry.key.nameId) then prior[entry.key := rename(entry)] else prior
  }

  /** sfntly's `NameTable.Builder`: a name record builder per key;
      `nameBuilder(key).setName(bytes)` creates or replaces that record. */
  class NameTableBuilder {
    var records: map<NameKey, seq<byte>>

    constructor (records: map<NameKey, seq<byte>>)
      ensures this.records == records
    {
      this.records := records;
    }

    method SetName(key: NameKey, bytes: seq<byte>)
      modifies this
      ensures records == old(records)[key := bytes]
    {
      records := records[key := bytes];
    }
  }

  /** The loop over the original name table. */
  method RenameFamilies(builder: NameTableBuilder, entries: seq<NameEntry>, suffix: Option<string>, codecs: Codecs)
    modifies builder
    ensures builder.records == Renamed(old(builder.records), entries, Renamer(codecs, suffix))
  {
    for i := 0 to |entries|
      invariant builder.records == Renamed(old(builder.records), entries[..i], Renamer(codecs, suffix))
    {
      assert entries[..i + 1][..i] == entries[..i];
      var entry := entries[i];
      var nameId := entry.key.nameId;
      if nameId != FontFamilyName {
        if nameId != FontFamilyName && nameId != PreferredFamily {
          continue;
        }
      }
      var encoding := GetEncoding(entry.key.platformId, entry.key.encodingId, entry.key.languageId);
      var name := GetString(codecs, encoding, entry.bytes);
      var newName := GetSubsetFontFamilyName(name, suffix);
      var newNameBytes := GetBytes(codecs, encoding, newName);
      builder.SetName(entry.key, newNameBytes);
    }
    assert entries[..|entries|] == entries;
  }

  /** The keys that end up with rewritten bytes. */
  ghost predicate RenamedKey(entries: seq<NameEntry>, key: NameKey) {
    IsFamilyName(key.nameId) && exists i :: 0 <= i < |entries| && entries[i].key == key
  }

  /** Records that are not family names of the original table keep their
      bytes, and no record disappears. */
  lemma {:induction false} RenamedKeepsOthers(records: map<NameKey, seq<byte>>, entries: seq<NameEntry>,
                                              rename: NameEntry -> seq<byte>, key: NameKey)
    requires !RenamedKey(entries, key)
    ensures key in Renamed(records, entries, rename) <==> key in records
    ensures key in records ==> Renamed(records, entries, rename)[key] == records[key]
  {
    if |entries| > 0 {
      var init := entries[..|entries| - 1];
      assert !RenamedKey(init, key) by {
        forall i | 0 <= i < |init| ensures init[i].key != key || !IsFamilyName(key.nameId) {
          assert init[i] == entries[i];
        }
      }
      RenamedKeepsOthers(records, init, rename, key);
      assert entries[|entries| - 1].key != key || !IsFamilyName(key.nameId);
    }
  }

  /** Every family-name record of the original table is in the result,
      with the bytes made from the last original record under its key. */
  lemma {:induction false} RenamedFamily(records: map<NameKey, seq<byte>>, entries: seq<NameEntry>,
                                         rename: NameEntry -> seq<byte>, i: nat)
    requires i < |entries| && IsFamilyName(entries[i].key.nameId)
    requires forall j :: i < j < |entries| ==> entries[j].key != entries[i].key
    ensures entries[i].key in Renamed(records, entries, rename)
    ensures Renamed(records, entries, rename)[entries[i].key] == rename(entries[i])
  {
    var last := |entries| - 1;
    if i < last {
      var init := entries[..last];
      assert init[i] == entries[i];
      forall j | i < j < |init| ensures init[j].key != init[i].key {
        assert init[j] == entries[j];
      }
      RenamedFamily(records, init, rename, i);
    }
  }

  /** In `SubsetFont` that record is the decoded name with the suffix,
      encoded again. */
  lemma RenamedFamilyName(records: map<NameKey, seq<byte>>, entries: seq<NameEntry>,
                          codecs: Codecs, suffix: Option<string>, i: nat)
    requires i < |entries| && IsFamilyName(entries[i].key.nameId)
    requires forall j :: i < j < |entries| ==> entries[j].key != entries[i].key
    ensures entries[i].key in Renamed(records, entries, Renamer(codecs, suffix))
    ensures Renamed(records, entries, Renamer(codecs, suffix))[entries[i].key]
              == NewNameBytes(codecs, entries[i].key, entries[i].bytes, suffix)
  {
    RenamedFamily(records, entries, Renamer(codecs, suffix), i);
  }

  /** A UTF-16BE family name (Windows Unicode BMP or a Unicode platform
      record other than 2.0 full repertoire) reads back as the original
      name, a plus sign and the escaped suffix. */
  lemma Utf16FamilyNameReadsBack(codecs: Codecs, key: NameKey, name: string, suffix: Option<string>)
    requires GetEncoding(key.platformId, key.encodingId, key.languageId) == BigEndianUnicode
    ensures Utf16.GetString(NewNameBytes(codecs, key, Utf16.GetBytes(name), suffix))
              == name + "+" + EncodeSuffix(suffix.GetOr(DefaultSuffix))
  {
    var newName := GetSubsetFontFamilyName(name, suffix);
    Utf16.GetStringGetBytes(name);
    NewNameBytesUtf16(codecs, key, Utf16.GetBytes(name), suffix);
    Utf16.GetStringGetBytes(newName);
    SubsetNameSpelledOut(name, suffix);
  }

  lemma NewNameBytesUtf16(codecs: Codecs, key: NameKey, bytes: seq<byte>, suffix: Option<string>)
    requires GetEncoding(key.platformId, key.encodingId, key.languageId) == BigEndianUnicode
    ensures NewNameBytes(codecs, key, bytes, suffix)
              == Utf16.GetBytes(GetSubsetFontFamilyName(Utf16.GetString(bytes), suffix))
  {
  }

  lemma SubsetNameSpelledOut(name: string, suffix: Option<string>)
    ensures GetSubsetFontFamilyName(name, suffix) == name + "+" + EncodeSuffix(suffix.GetOr(DefaultSuffix))
  {
    assert SubsetMarker(suffix.GetOr(DefaultSuffix)) == "+" + EncodeSuffix(suffix.GetOr(DefaultSuffix));
  }
}
