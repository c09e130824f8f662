/** `SubsetFonts` and `SubsetFont`: load every font of a file (a single
    font or a collection), compute the glyphs the text needs, have sfntly
    build a subset keeping only the Windows BMP cmap and leaving out the
    tables in `RemovedTables`, and rename its family. sfntly itself (font
    loading, glyph renumbering, table building and serialisation) is given
    to the model as the closures of an `Sfntly` value. */
module FontSubsetter {
  import opened Wrappers
  import opened FontModel
  import opened CMapSelection
  import opened GlyphCoverage
  import opened TableTags
  import opened NameEncodings
  import opened NameTableRewrite

  /** A cmap the subset keeps, as sfntly's `CMapTable.CMapId`. */
  datatype CMapId = CMapId(platformId: nat, encodingId: nat)

  /** `CMapTable.CMapId.WINDOWS_BMP`. */
  const WindowsBmp: CMapId := CMapId(PlatformWindows, WindowsUnicodeUCS2)

  /** What `SubsetFont` configures the `RenumberingSubsetter` with. */
  datatype SubsetRequest = SubsetRequest(
    cmapIds: seq<CMapId>,   // setCMaps(cmapIds, number)
    cmapCount: nat,
    glyphs: seq<nat>,       // setGlyphs
    removeTables: set<int>) // setRemoveTables

  /** The parts of sfntly `SubsetFont` relies on:
      `loadFonts` parses a font file (None when sfntly throws);
      `subsetNames` is the name table of the builder `subset()` returns;
      `serialize` builds the subset font from the request and the final
      name records and writes it out. */
  datatype Sfntly = Sfntly(
    loadFonts: seq<byte> -> Option<seq<Font>>,
    subsetNames: (Font, SubsetRequest) -> map<NameKey, seq<byte>>,
    serialize: (Font, SubsetRequest, map<NameKey, seq<byte>>) -> seq<byte>)

  datatype SubsetError =
    | LoadFailed                      // sfntly could not read the font file
    | NoNameTable                     // the font has no `name` table
    | CoverageFailed(error: CoverageError)

  function Request(glyphs: seq<nat>): SubsetRequest {
    SubsetRequest([WindowsBmp], 1, glyphs, RemovedTables)
  }

  /** The bytes of the subset of `font` that keeps `glyphs`. */
  function SubsetBytes(sfntly: Sfntly, codecs: Codecs, font: Font, glyphs: seq<nat>, suffix: Option<string>): seq<byte>
    requires font.names.Some?
  {
    var request := Request(glyphs);
    sfntly.serialize(font, request, Renamed(sfntly.subsetNames(font, request), font.names.value, Renamer(codecs, suffix)))
  }

  /** `SubsetFont` throws: the coverage fails, or the loop over the original
      `name` table finds no table. */
  ghost predicate SubsetFails(font: Font, text: seq<CodeUnit>) {
    CoverageFailsAsWritten(font, text) || font.names.None?
  }

  /** The exception `SubsetFont` throws on a font it cannot subset: the
      coverage's first, then the missing `name` table's. */
  ghost function SubsetErrorOf(font: Font, text: seq<CodeUnit>): SubsetError {
    if CoverageFailsAsWritten(font, text) then
      CoverageFailed(if BestCMap(font.cmaps).None? then NoUsableCMap else GlyphOutOfRange)
    else
      NoNameTable
  }

  /** `bytes` is the subset of `font` for `text`: the one built from the
      glyph coverage of the text, as GetGlyphCoverage computes it. */
  ghost predicate IsSubsetFont(sfntly: Sfntly, codecs: Codecs, font: Font, text: seq<CodeUnit>,
                               suffix: Option<string>, bytes: seq<byte>) {
    && font.names.Some?
    && exists glyphs :: IsCoverageAsWritten(font, text, glyphs) && bytes == SubsetBytes(sfntly, codecs, font, glyphs, suffix)
  }

  method SubsetFont(sfntly: Sfntly, codecs: Codecs, font: Font, text: seq<CodeUnit>, suffix: Option<string>)
    returns (r: Result<seq<byte>, SubsetError>)
    ensures r.Failure? <==> SubsetFails(font, text)
    ensures r.Failure? && CoverageFailsAsWritten(font, text) ==>
      r.error == CoverageFailed(if BestCMap(font.cmaps).None? then NoUsableCMap else GlyphOutOfRange)
    ensures r.Failure? && !CoverageFailsAsWritten(font, text) ==> r.error == NoNameTable
    ensures r.Failure? ==> r.error == SubsetErrorOf(font, text)
    ensures r.Success? ==> IsSubsetFont(sfntly, codecs, font, text, suffix, r.value)
  {
    var cmapIds := [WindowsBmp];
    var coverage := GetGlyphCoverageAsWritten(font, text);
    if coverage.Failure? {
      return Failure(CoverageFailed(coverage.error));
    }
    var removeTables := RemoveTables();
    var request := SubsetRequest(cmapIds, 1, coverage.value, removeTables);
    var builder := new NameTableBuilder(sfntly.subsetNames(font, request));
    if font.names.None? {
      return Failure(NoNameTable);
    }
    RenameFamilies(builder, font.names.value, suffix, codecs);
    r := Success(sfntly.serialize(font, request, builder.records));
    assert r.value == SubsetBytes(sfntly, codecs, font, coverage.value, suffix);
  }

  /** The printable ASCII block appended to the text: the 96 code units
      0x20 to 0x7F, DEL included. */
  function AsciiPrintable(): (units: seq<CodeUnit>)
    ensures |units| == 0x7F - 0x20 + 1
    ensures forall k :: 0 <= k < |units| ==> units[k] == 0x20 + k
  {
    seq(0x7F - 0x20 + 1, k => 0x20 + k)
  }

  /** The text a subset is computed for. */
  function PrepareSubsetString(text: seq<CodeUnit>, includesAsciiPrintableCharacters: bool): (r: seq<CodeUnit>)
    ensures includesAsciiPrintableCharacters ==> r == text + AsciiPrintable()
    ensures !includesAsciiPrintableCharacters ==> r == text
  {
    if includesAsciiPrintableCharacters then text + AsciiPrintable() else text
  }

  /** With the flag set every printable ASCII character, and the text
      itself, is mapped into the coverage. */
  lemma AsciiPrintableCovered(font: Font, text: seq<CodeUnit>, glyphs: seq<nat>, c: CodeUnit)
    requires IsCoverageAsWritten(font, PrepareSubsetString(text, true), glyphs)
    requires 0x20 <= c <= 0x7F || c in text
    ensures GlyphIdOf(BestCMap(font.cmaps).value, c) in glyphs
  {
    var prepared := PrepareSubsetString(text, true);
    if c in text {
      var i :| 0 <= i < |text| && text[i] == c;
      assert prepared[i] == c;
      MappedGlyphsCovered(font, prepared, glyphs, i);
    } else {
      assert prepared[|text| + (c - 0x20)] == c;
      MappedGlyphsCovered(font, prepared, glyphs, |text| + (c - 0x20));
    }
  }

  /** `outputs` are the subsets of the fonts in `fontBytes`, one per font
      and in file order, each for the prepared text. */
  ghost predicate AreSubsetFonts(sfntly: Sfntly, codecs: Codecs, fontBytes: seq<byte>, subsetString: seq<CodeUnit>,
                                 suffix: Option<string>, includesAsciiPrintableCharacters: bool, outputs: seq<seq<byte>>) {
    && sfntly.loadFonts(fontBytes).Some?
    && var fonts := sfntly.loadFonts(fontBytes).value;
       var text := PrepareSubsetString(subsetString, includesAsciiPrintableCharacters);
       && |outputs| == |fonts|
       && forall i :: 0 <= i < |fonts| ==> IsSubsetFont(sfntly, codecs, fonts[i], text, suffix, outputs[i])
  }

  /** The file does not load, or subsetting one of its fonts fails. */
  ghost predicate SubsettingFails(sfntly: Sfntly, fontBytes: seq<byte>, subsetString: seq<CodeUnit>,
                                  includesAsciiPrintableCharacters: bool) {
    || sfntly.loadFonts(fontBytes).None?
    || var fonts := sfntly.loadFonts(fontBytes).value;
       var text := PrepareSubsetString(subsetString, includesAsciiPrintableCharacters);
       exists i :: 0 <= i < |fonts| && SubsetFails(fonts[i], text)
  }

  /** The error `SubsetFonts` ends with: `LoadFailed` when the file does
      not load, otherwise the error of the first font, in file order, that
      cannot be subset (the source subsets eagerly, so the first throw is
      the one that escapes). */
  ghost predicate IsSubsettingError(sfntly: Sfntly, fontBytes: seq<byte>, subsetString: seq<CodeUnit>,
                                    includesAsciiPrintableCharacters: bool, e: SubsetError) {
    if sfntly.loadFonts(fontBytes).None? then
      e == LoadFailed
    else
      var fonts := sfntly.loadFonts(fontBytes).value;
      var text := PrepareSubsetString(subsetString, includesAsciiPrintableCharacters);
      exists i :: 0 <= i < |fonts| && SubsetFails(fonts[i], text)
        && (forall k :: 0 <= k < i ==> !SubsetFails(fonts[k], text))
        && e == SubsetErrorOf(fonts[i], text)
  }

  /** A font that fails after fonts that all succeeded decides the
      whole call's error. */
  lemma FirstFailingFont(sfntly: Sfntly, fontBytes: seq<byte>, subsetString: seq<CodeUnit>,
                         includesAsciiPrintableCharacters: bool, i: nat)
    requires sfntly.loadFonts(fontBytes).Some?
    requires i < |sfntly.loadFonts(fontBytes).value|
    requires SubsetFails(sfntly.loadFonts(fontBytes).value[i], PrepareSubsetString(subsetString, includesAsciiPrintableCharacters))
    requires forall k :: 0 <= k < i ==>
      !SubsetFails(sfntly.loadFonts(fontBytes).value[k], PrepareSubsetString(subsetString, includesAsciiPrintableCharacters))
    ensures SubsettingFails(sfntly, fontBytes, subsetString, includesAsciiPrintableCharacters)
    ensures IsSubsettingError(sfntly, fontBytes, subsetString, includesAsciiPrintableCharacters,
      SubsetErrorOf(sfntly.loadFonts(fontBytes).value[i], PrepareSubsetString(subsetString, includesAsciiPrintableCharacters)))
  {
  }

  /** A loaded file none of whose fonts fails does not fail. */
  lemma NoFailingFont(sfntly: Sfntly, fontBytes: seq<byte>, subsetString: seq<CodeUnit>,
                      includesAsciiPrintableCharacters: bool)
    requires sfntly.loadFonts(fontBytes).Some?
    requires forall k :: 0 <= k < |sfntly.loadFonts(fontBytes).value| ==>
      !SubsetFails(sfntly.loadFonts(fontBytes).value[k], PrepareSubsetString(subsetString, includesAsciiPrintableCharacters))
    ensures !SubsettingFails(sfntly, fontBytes, subsetString, includesAsciiPrintableCharacters)
  {
  }

  /** `SubsetFonts`: one subset per font of the file, in file order; the
      first font whose subsetting fails ends the whole call. */
  method SubsetFonts(sfntly: Sfntly, codecs: Codecs, fontBytes: seq<byte>, subsetString: seq<CodeUnit>,
                     suffix: Option<string>, includesAsciiPrintableCharacters: bool)
    returns (r: Result<seq<seq<byte>>, SubsetError>)
    ensures r == Failure(LoadFailed) <==> sfntly.loadFonts(fontBytes).None?
    ensures r.Failure? <==> SubsettingFails(sfntly, fontBytes, subsetString, includesAsciiPrintableCharacters)
    ensures r.Failure? ==> IsSubsettingError(sfntly, fontBytes, subsetString, includesAsciiPrintableCharacters, r.error)
    ensures r.Success? ==>
      AreSubsetFonts(sfntly, codecs, fontBytes, subsetString, suffix, includesAsciiPrintableCharacters, r.value)
  {
    var fonts := sfntly.loadFonts(fontBytes);
    if fonts.None? {
      return Failure(LoadFailed);
    }
    var text := subsetString;
    if includesAsciiPrintableCharacters {
      text := text + AsciiPrintable();
    }
    assert text == PrepareSubsetString(subsetString, includesAsciiPrintableCharacters);
    var outputs: seq<seq<byte>> := [];
    for i := 0 to |fonts.value|
      invariant |outputs| == i
      invariant forall k :: 0 <= k < i ==> IsSubsetFont(sfntly, codecs, fonts.value[k], text, suffix, outputs[k])
      invariant forall k :: 0 <= k < i ==> !SubsetFails(fonts.value[k], text)
    {
      var output := SubsetFont(sfntly, codecs, fonts.value[i], text, suffix);
      if output.Failure? {
        FirstFailingFont(sfntly, fontBytes, subsetString, includesAsciiPrintableCharacters, i);
        return Failure(output.error);
      }
      outputs := outputs + [output.value];
    }
    NoFailingFont(sfntly, fontBytes, subsetString, includesAsciiPrintableCharacters);
    return Success(outputs);
  }
}
