/** The parts of a parsed font that the subsetter reads. Parsing itself
    (sfntly's FontFactory) is not part of this model: a Font is what it
    yields. */
module FontModel {
  import opened Wrappers

  /** A `glyf` entry: its outline is either its own (simple or empty) or
      made of other glyphs, listed by glyph id. */
  datatype Glyph = Simple | Composite(components: seq<nat>)

  /** One `cmap` subtable: its (platform, encoding) id, its format number,
      and the code point to glyph id mapping it encodes. */
  datatype CMapSubtable = CMapSubtable(platformId: nat, encodingId: nat, format: nat, glyphIds: map<nat, nat>)

  /** sfntly's `CMap.glyphId(c)`: glyph 0 (.notdef) for an unmapped code point. */
  function GlyphIdOf(cmap: CMapSubtable, c: nat): (g: nat)
    ensures c !in cmap.glyphIds ==> g == 0
  {
    if c in cmap.glyphIds then cmap.glyphIds[c] else 0
  }

  /** The key of a `name` record. */
  datatype NameKey = NameKey(platformId: nat, encodingId: nat, languageId: nat, nameId: nat)

  datatype NameEntry = NameEntry(key: NameKey, bytes: seq<byte>)

  /** A logical font: its `cmap` subtables in table order, its glyphs
      indexed by glyph id (the `loca`/`glyf` pair), and its `name` records
      in table order, None when the font has no `name` table. */
  datatype Font = Font(cmaps: seq<CMapSubtable>, glyphs: seq<Glyph>, names: Option<seq<NameEntry>>)

  /** `GetGlyph`: the `loca` offset and length of a glyph id, read back from
      `glyf`. sfntly's `LocaTable.glyphOffset` rejects an id outside the
      table; that failure is modelled as None. */
  function GetGlyph(font: Font, glyphId: nat): (r: Option<Glyph>)
    ensures r.Some? <==> glyphId < |font.glyphs|
    ensures r.Some? ==> r.value == font.glyphs[glyphId]
  {
    if glyphId < |font.glyphs| then Some(font.glyphs[glyphId]) else None
  }
}
