# Font subsetting for QuestPDF, modelled in Dafny

Diva.FontSubsetting cuts a TrueType/OpenType font (or every font of a
collection) down to the glyphs a given text needs, using sfntly's
`RenumberingSubsetter`. Each subset keeps only the Windows BMP `cmap`,
drops twelve tables the subsetter does not renumber, and has its family
name (name IDs 1 and 16) rewritten to `<original>+<escaped suffix>`.
Diva.FontSubsetting.QuestPDF registers such subsets with QuestPDF's font
manager and removes them again, by exact family name or by suffix.

The model covers:

- the escaping of the suffix (`Uri.EscapeDataString`, RFC 3986 sections 2.1
  and 2.3) and the subset family name built from it, with the round trip
  through unescaping, the absence of `+` in the escaped suffix, and the
  fact that a subset name matches the suffix predicate of exactly one
  suffix (`FamilyNames`, `UriEscape`, `Utf8`);
- the choice of a `cmap` subtable: the first Format 12, else the first
  Format 4 (`CMapSelection`);
- the glyph coverage: .notdef plus the glyph of each UTF-16 code unit,
  closed under composite-glyph components by a depth-first search whose
  visited set is the coverage itself, sorted ascending (`GlyphCoverage`);
- the encoding chosen for a name record from its platform and encoding
  IDs, with UTF-16BE written out byte for byte (`NameEncodings`, `Utf16`);
- the rewrite loop over the name table (`NameTableRewrite`);
- the table tags sfntly packs into Java `int`s and the set of removed
  tables (`TableTags`);
- `SubsetFont` and `SubsetFonts`, with sfntly's loading, subsetting and
  serialisation as closures (`FontSubsetter`);
- the registry operations of `FontManagerHelper`, with QuestPDF's
  `StyleSets` dictionary as a map from family name to the fonts registered
  under it (`FontManagerHelper`).

The exceptions of the source that the model covers are `Failure`
results: `LoadFailed` when sfntly cannot read the font file,
`CoverageFailed(NoUsableCMap)` for the `InvalidOperationException` of a
font whose `cmap` table has no Format 4 or 12 subtable,
`CoverageFailed(GlyphOutOfRange)` when the search reaches a glyph id
beyond the font's glyph table, and `NoNameTable` for the
`NullReferenceException` of a font without a `name` table. The others are
listed under "## Left out". `SubsetFont` computes the coverage the way
the source writes it: .notdef is put into the coverage before any search,
so the searches start from the glyphs the text maps to and never look
inside glyph 0 (see "## Findings"). A failure in `RegisterFont` or
`UpdateFont` happens before the registry is touched, so it leaves the
registry as it was.

The source appends the code units 0x20 through 0x7F, DEL included
(`Enumerable.Range(0x20, 0x7F - 0x20 + 1)`), although the comment and the
parameter name call the block the printable ASCII characters, which end
at 0x7E; the model follows the code.

## Model

| member | source | states |
|---|---|---|
| UriEscape.EscapeDataString | Diva.FontSubsetting/FontSubsetter.cs:28 | the result consists only of unreserved characters and `%XX` escapes with upper-case hex digits |
| UriEscape.EscapedHasNoPlus | Diva.FontSubsetting/FontSubsetter.cs:28 | an escaped string never contains `+` |
| UriEscape.EscapeKeepsUnreserved | Diva.FontSubsetting/FontSubsetter.cs:28 | a string of unreserved characters escapes to itself |
| UriEscape.UnescapeEscape | Diva.FontSubsetting/FontSubsetter.cs:28 | percent-decoding and UTF-8-decoding the escaped string gives back the original string |
| UriEscape.EscapeInjective | Diva.FontSubsetting/FontSubsetter.cs:28 | two different suffixes never escape to the same string |
| Utf8.EncodeScalar | Diva.FontSubsetting/FontSubsetter.cs:28 | a character is one to four UTF-8 bytes, a single byte exactly for ASCII, which is its own code |
| Utf8.DecodeEncode | Diva.FontSubsetting/FontSubsetter.cs:28 | UTF-8 decoding inverts UTF-8 encoding |
| FamilyNames.EncodeSuffix | Diva.FontSubsetting/FontSubsetter.cs:28 | the encoded suffix contains no `+` and unescapes to the suffix |
| FamilyNames.SubsetMarker | Diva.FontSubsetting/FontSubsetter.cs:37 | the marker is `+` followed by a `+`-free text that unescapes to the suffix |
| FamilyNames.EndsWith | Diva.FontSubsetting.QuestPDF/FontManagerHelper.cs:126 | a name ends with a suffix exactly when it is some text followed by the suffix, character for character |
| FamilyNames.GetSubsetFontFamilyName | Diva.FontSubsetting/FontSubsetter.cs:36-37 | the name starts with the original name, continues with `+`, ends with `+` and the encoded suffix (`subset` when none is given), and has no `+` after the original name's |
| FamilyNames.LastPlusBeforeTail | Diva.FontSubsetting/FontSubsetter.cs:36-37 | the last `+` of a subset name is the one right after the original name |
| FamilyNames.SubsetNameMatchesOnlyItsSuffix | Diva.FontSubsetting/FontSubsetter.cs:36-37 | a subset name ends with `+EncodeSuffix(s)` exactly when `s` is the suffix it was built with |
| CMapSelection.FirstWithFormat | Diva.FontSubsetting/FontSubsetter.cs:260-270 | the index found holds the format asked for and no earlier subtable does; none is found only when no subtable has the format |
| CMapSelection.Format12Wins | Diva.FontSubsetting/FontSubsetter.cs:260-264 | with a Format 12 subtable present the first one is chosen, whatever Format 4 subtables precede it |
| CMapSelection.Format4Fallback | Diva.FontSubsetting/FontSubsetter.cs:266-270 | without Format 12 the first Format 4 subtable is chosen |
| CMapSelection.NoUsableCMap | Diva.FontSubsetting/FontSubsetter.cs:258-273 | no subtable is chosen exactly when none has Format 4 or 12, and a chosen one always has one of them |
| CMapSelection.BestCMap | Diva.FontSubsetting/FontSubsetter.cs:258-273 | the chosen subtable is one of the font's, of Format 12 or 4; a Format 12 one is chosen whenever one exists, and some subtable is chosen whenever a Format 4 one exists |
| CMapSelection.GetBestCMap | Diva.FontSubsetting/FontSubsetter.cs:258-273 | the two passes with early return choose the subtable `BestCMap` describes |
| GlyphCoverage.TouchGlyph | Diva.FontSubsetting/FontSubsetter.cs:233-248 | the coverage only grows and ends containing the glyph; a glyph already covered changes nothing; what is added is reachable from the glyph through components avoiding the old coverage; on success every added glyph exists and its components are covered; a failure comes from reaching an id with no glyph; terminates on cyclic composites |
| GlyphCoverage.SortCoverage | Diva.FontSubsetting/FontSubsetter.cs:219-221 | the list is strictly ascending and holds exactly the elements of the set |
| GlyphCoverage.AscendingUnique | Diva.FontSubsetting/FontSubsetter.cs:219-221 | two strictly ascending lists with the same elements are equal |
| GlyphCoverage.GetGlyphCoverageAsWritten | Diva.FontSubsetting/FontSubsetter.cs:205-222 | as written: fails without a usable cmap, fails exactly when a search from the mapped glyphs (with glyph 0 preset) reaches a missing glyph, and otherwise returns the ascending list of glyph 0 and all glyphs those searches reach |
| GlyphCoverage.AsWrittenClosedExceptNotdef | Diva.FontSubsetting/FontSubsetter.cs:233-248 | every covered glyph other than 0 exists and has its components covered |
| GlyphCoverage.AsWrittenDropsNotdefComponents | Diva.FontSubsetting/FontSubsetter.cs:209-210 | for a font whose glyph 0 is a composite of glyph 1 and an empty text, the coverage as written is `[0]`, without glyph 1 |
| GlyphCoverage.AsWrittenSucceedsOnCompositeNotdef | Diva.FontSubsetting/FontSubsetter.cs:208-210 | that font has a usable cmap and the as-written coverage does not fail on it |
| GlyphCoverage.GetGlyphCoverage | Diva.FontSubsetting/FontSubsetter.cs:205-222 | with glyph 0 touched like the others: fails without a usable cmap or when a missing glyph is reached, and otherwise returns the ascending list of exactly the glyphs reachable from 0 and the mapped glyphs |
| GlyphCoverage.MappedGlyphsCovered | Diva.FontSubsetting/FontSubsetter.cs:210-217 | glyph 0 is covered and is the first element, and the glyph of every code unit of the text is covered |
| GlyphCoverage.NotdefFirst | Diva.FontSubsetting/FontSubsetter.cs:210-220 | in an ascending list containing 0, 0 comes first |
| GlyphCoverage.CoverageIsClosed | Diva.FontSubsetting/FontSubsetter.cs:233-248 | every covered glyph is in the glyph table, so `FontModel.GetGlyph` finds it, and every component of a covered composite is covered |
| GlyphCoverage.AsWrittenCoverageUnique | Diva.FontSubsetting/FontSubsetter.cs:205-222 | the coverage as written is determined by the font and the text, so the subset `SubsetFont` builds is too |
| GlyphCoverage.CoverageUnique | Diva.FontSubsetting/FontSubsetter.cs:205-222 | the coverage is determined by the font and the text |
| GlyphCoverage.CoverageKeepsNotdefComponents | Diva.FontSubsetting/FontSubsetter.cs:209-210 | on the font with composite glyph 0 the corrected coverage is `[0, 1]` |
| GlyphCoverage.MappedGlyphs | Diva.FontSubsetting/FontSubsetter.cs:212-216 | one glyph id per code unit, in text order, each the one `FontModel.GlyphIdOf` reads from the subtable, so glyph 0 for a unit the subtable does not map |
| NameEncodings.GetEncoding | Diva.FontSubsetting/FontSubsetter.cs:164-193 | UTF-16BE for Windows UCS-2 and Unicode platform encodings other than 2.0; UTF-32BE for Windows UCS-4 and Unicode 2.0; Shift_JIS for Windows Shift-JIS and Macintosh Japanese; UTF-8 for everything else |
| NameEncodings.EncodingIgnoresLanguage | Diva.FontSubsetting/FontSubsetter.cs:164-193 | the language id never changes the encoding |
| NameEncodings.Utf16RoundTrip | Diva.FontSubsetting/FontSubsetter.cs:137-139 | a name written with `NameEncodings.GetBytes` in UTF-16BE and read back with `NameEncodings.GetString` is unchanged, whatever the platform codecs do |
| Utf16.EncodeScalar | Diva.FontSubsetting/FontSubsetter.cs:139 | a character below U+10000 is the two bytes of its own code unit; any other is four bytes, a high surrogate followed by a low surrogate that together give back the character |
| Utf16.GetBytes | Diva.FontSubsetting/FontSubsetter.cs:139 | the encoding is two bytes per UTF-16 code unit (`Utf16.CodeUnitCount`), so two to four bytes per character |
| Utf16.CodeUnitCount | Diva.FontSubsetting/FontSubsetter.cs:139 | a string has at least one and at most two UTF-16 code units per character |
| Utf16.GetString | Diva.FontSubsetting/FontSubsetter.cs:137 | decoding gives at most one character per two bytes (a trailing odd byte counts as one), and something for any non-empty input |
| Utf16.GetStringGetBytes | Diva.FontSubsetting/FontSubsetter.cs:137-139 | decoding UTF-16BE inverts encoding it |
| NameTableRewrite.NameTableBuilder.SetName | Diva.FontSubsetting/FontSubsetter.cs:140-146 | the record under the key gets the new bytes and every other record is kept |
| NameTableRewrite.RenameFamilies | Diva.FontSubsetting/FontSubsetter.cs:119-147 | the loop leaves the builder's records as `Renamed` of the records it started from |
| NameTableRewrite.RenamedKeepsOthers | Diva.FontSubsetting/FontSubsetter.cs:124-127 | a record that is not a family name (ID 1 or 16) of the original table keeps its bytes, and no record disappears |
| NameTableRewrite.RenamedFamily | Diva.FontSubsetting/FontSubsetter.cs:140-146 | each family-name record of the original table ends up under its own key, with the bytes computed from the last original record under that key |
| NameTableRewrite.RenamedFamilyName | Diva.FontSubsetting/FontSubsetter.cs:131-146 | in `SubsetFont` those bytes are the record's name decoded with its encoding, given the subset suffix, and encoded again |
| NameTableRewrite.Utf16FamilyNameReadsBack | Diva.FontSubsetting/FontSubsetter.cs:135-139 | a UTF-16BE family name reads back as the original name, `+` and the encoded suffix |
| TableTags.IntValue | Diva.FontSubsetting/FontSubsetter.cs:111-112 | four tag bytes packed big-endian into a 32-bit Java int, negative exactly when the first byte is 0x80 or more; for the ASCII names the source packs this is sfntly's `Tag.intValue` |
| TableTags.Truncate | Diva.FontSubsetting/FontSubsetter.cs:111-112 | the `(byte)` cast keeps a character below 256 unchanged |
| TableTags.TagOfAscii | Diva.FontSubsetting/FontSubsetter.cs:111-112 | the tag of an ASCII name is its four codes packed big-endian |
| TableTags.RemoveTables | Diva.FontSubsetting/FontSubsetter.cs:98-113 | the set filled tag by tag is `RemovedTables` |
| TableTags.RemovedTablesAreTags | Diva.FontSubsetting/FontSubsetter.cs:100-112 | the packed values of `RemovedTables` are the tags of the twelve table names the source lists |
| TableTags.RemovedTagValues | Diva.FontSubsetting/FontSubsetter.cs:100-112 | the values of the twelve removed tags |
| TableTags.KeptTagValues | Diva.FontSubsetting/FontSubsetter.cs:117 | the values of the `cmap`, `glyf`, `loca`, `name` and `head` tags |
| TableTags.RemovedTablesExact | Diva.FontSubsetting/FontSubsetter.cs:98-113 | twelve distinct tables are removed, and `cmap`, `glyf`, `loca`, `name` and `head` are not among them |
| FontSubsetter.SubsetFont | Diva.FontSubsetting/FontSubsetter.cs:80-154 | fails exactly when the coverage as written fails (no Format 4 or 12 cmap, or a search from the mapped glyphs reaches a missing glyph), with that error, or else when the font has no `name` table, with `NoNameTable`; otherwise returns the serialised subset built from the Windows BMP cmap, the as-written coverage, the removed tables and the renamed name records |
| FontSubsetter.AsciiPrintableCovered | Diva.FontSubsetting/FontSubsetter.cs:57-61 | when `FontSubsetter.PrepareSubsetString` appends the block of `FontSubsetter.AsciiPrintable` (flag set), the glyph of every character 0x20 to 0x7F, DEL included, and of every character of the text is in the as-written coverage |
| FontSubsetter.SubsetFonts | Diva.FontSubsetting/FontSubsetter.cs:48-66 | fails with `LoadFailed` exactly when the file does not load; a loaded file fails exactly when one of its fonts has a failing as-written coverage or no `name` table, with the error of the first such font in file order; on success it returns one subset per loaded font, in order |
| FontManagerHelper.WithoutMatching | Diva.FontSubsetting.QuestPDF/FontManagerHelper.cs:79-98 | exactly the families whose name does not match remain, with their fonts |
| FontManagerHelper.Register | Diva.FontSubsetting.QuestPDF/FontManagerHelper.cs:31 | registering adds the font's family name to the names present, appends the font to that family's fonts and leaves every other family as it was |
| FontManagerHelper.RegisterAll | Diva.FontSubsetting.QuestPDF/FontManagerHelper.cs:28-32 | after registering the fonts the family names are the earlier ones plus the family of each font |
| FontManagerHelper.FontRegistry.RegisterTypeface | Diva.FontSubsetting.QuestPDF/FontManagerHelper.cs:31 | the font is appended to its family's fonts |
| FontManagerHelper.FontRegistry.RegisterSubsets | Diva.FontSubsetting.QuestPDF/FontManagerHelper.cs:28-32 | the fonts are registered in order |
| FontManagerHelper.FontRegistry.RemoveFontsInternal | Diva.FontSubsetting.QuestPDF/FontManagerHelper.cs:69-99 | the registry loses exactly the families whose name matched before any removal |
| FontManagerHelper.FontRegistry.RemoveSubsetFontByName | Diva.FontSubsetting.QuestPDF/FontManagerHelper.cs:105-111 | removes the families equal to the name |
| FontManagerHelper.FontRegistry.RemoveSubsetFontsBySuffix | Diva.FontSubsetting.QuestPDF/FontManagerHelper.cs:121-128 | removes the families ending with `+` and the encoded suffix |
| FontManagerHelper.FontRegistry.RegisterFont | Diva.FontSubsetting.QuestPDF/FontManagerHelper.cs:18-34 | fails exactly when subsetting fails, with the error of `SubsetFonts` (the first failing font's), leaving the registry unchanged; otherwise registers the subsets of every font in order |
| FontManagerHelper.FontRegistry.UpdateFont | Diva.FontSubsetting.QuestPDF/FontManagerHelper.cs:43-64 | fails exactly when subsetting fails, with the error of `SubsetFonts` (the first failing font's), leaving the registry unchanged; otherwise removes the families with the suffix and registers the new subsets |
| FontManagerHelper.RemoveByNameRemovesOnlyIt | Diva.FontSubsetting.QuestPDF/FontManagerHelper.cs:105-111 | removing with `FontManagerHelper.NameMatcher(n)` removes the family `n` only, and an absent name changes nothing |
| FontManagerHelper.WithoutMatchingIdempotent | Diva.FontSubsetting.QuestPDF/FontManagerHelper.cs:121-128 | removing twice is removing once |
| FontManagerHelper.SubsetNameRemovedBySuffix | Diva.FontSubsetting.QuestPDF/FontManagerHelper.cs:125-126 | removing with `FontManagerHelper.SuffixMatcher(t)` removes a family named by `GetSubsetFontFamilyName(o, s)` exactly when `t` is `s` (or `subset` when `s` is absent) |
| FontManagerHelper.RegisterAllOnlyAdds | Diva.FontSubsetting.QuestPDF/FontManagerHelper.cs:28-32 | registering never removes a family or a font, and every registered font is listed under its family |
| FontManagerHelper.UpdateLeavesOnlyNewSubsets | Diva.FontSubsetting.QuestPDF/FontManagerHelper.cs:50-63 | after an update, any family with the suffix belongs to one of the new subsets |

## Left out

- FontSubsetter.SubsetFont: the model assumes sfntly's `subset()` (FontSubsetter.cs:114), `build()` and `serializeFont` (lines 150-152) do not throw; the source fails there and the model does not. A font with no `cmap` table at all gets `NoUsableCMap` in the model, while `GetBestCMap` throws a `NullReferenceException` at line 260 in the source; a missing `glyf`/`loca` pair is a font with an empty glyph table, so the same calls fail, with `GlyphOutOfRange` where `GetGlyph` (line 288) throws a `NullReferenceException`.
- FontSubsetter.SubsetFonts: inherits those gaps, so a font on which sfntly's subsetting, building or serialisation throws does not make it fail in the model.
- GlyphCoverage.TouchGlyph: the recursion has no depth limit in the model; in the source a chain of nested composite glyphs deep enough overflows the .NET stack.
- sfntly's font loading (`FontFactory.loadFonts`), the `RenumberingSubsetter` (glyph renumbering, `glyf`/`loca`/`cmap` rewriting, table dropping), `build` and `serializeFont` are closures of an `Sfntly` value: their code is not part of this model, so nothing is proved about the bytes they produce.
- The name table the subsetter hands back is `Sfntly.subsetNames`; the model proves what the loop writes into it, not what sfntly puts there.
- The .NET encodings other than UTF-16BE (UTF-32BE, Shift_JIS, UTF-8 on name bytes) are the closures of a `Codecs` value; only UTF-16BE is written out.
- NameEncodings.GetEncoding: assumes the Shift_JIS encoding is available, as it is once a code-pages encoding provider is registered; without one, `Encoding.GetEncoding("Shift_JIS")` (FontSubsetter.cs lines 175 and 180) throws `ArgumentException` on .NET Core and later for Windows Shift-JIS and Macintosh Japanese name records, which the model does not capture.
- TableTags.TagBytes, TableTags.TagBytesOfIntValue, TableTags.IntValueOfTagBytes and TableTags.IntValueInjective are helpers of the model (unpacking a tag and the injectivity of packing), not operations of the source.
- UriEscape.EscapeDataString: models well-formed text only, since a Dafny `string` cannot hold a lone surrogate; what .NET does with one depends on the runtime version (an exception, or the bytes of U+FFFD, `%EF%BF%BD`).
- FamilyNames.EndsWith: ordinal comparison, while the C# `EndsWith(string)` in FontManagerHelper.cs is culture-sensitive and skips characters the collation ignores; a family name ending with the marker followed by a soft hyphen (U+00AD) or another ignorable character matches there and not in the model.
- GlyphCoverage.TouchGlyph: the `HashSet` is passed as a value and returned, not shared by reference; the coverage set is local to GetGlyphCoverage, so nothing else observes it.
- GlyphCoverage.TouchGlyph: a glyph id beyond the glyph table is a `GlyphOutOfRange` failure; in sfntly the `loca` lookup throws, and the glyph id is already in the coverage when it does, which no caller sees.
- GlyphCoverage.SortCoverage: `Collections.sort` is modelled by its outcome (an ascending list of the same elements), built least id first, not by Java's merge sort.
- Surrogate pairs in the subset text are looked up unit by unit, as the source does; non-BMP characters are not combined.
- The lock in FontManagerHelper.cs (concurrency) and the reflection that reaches `FontManager.StyleSets` and `TryRemove`, including its `InvalidOperationException` when they are missing.
- QuestPDF's `FontManager.RegisterFont` is modelled as appending the font to the list under its family name; how QuestPDF reads the family name (`familyName`) and orders typefaces by style inside a family are QuestPDF's and not modelled.
- PageExtensions.cs, TextStyleExtensions.cs and SampleConsoleApp/Program.cs are not part of this model: they are a reflection walk over QuestPDF's element tree, glue and a demo with file I/O.

## Findings

| source | as written | input that shows it | evidently intended | confidence | as-written member | corrected member |
|---|---|---|---|---|---|---|
| Diva.FontSubsetting/FontSubsetter.cs:209-210 | .NOTDEF is added to the coverage directly instead of through `TouchGlyph`, so when glyph 0 is a composite its components are never searched and never kept | a font whose glyph 0 is `Composite([1])` next to a simple glyph 1, with a Format 4 cmap mapping nothing, and an empty text (no ASCII block): the coverage is `[0]` | glyph 0 closed under its components like every other covered glyph, giving `[0, 1]` | not executed | GlyphCoverage.AsWrittenDropsNotdefComponents | GlyphCoverage.CoverageKeepsNotdefComponents |

`FontSubsetter.SubsetFont` follows the source and uses `GlyphCoverage.GetGlyphCoverageAsWritten`; the corrected search is `GlyphCoverage.GetGlyphCoverage`, whose properties (`CoverageIsClosed`, `CoverageUnique`, `MappedGlyphsCovered`) are proved on their own.
