/** `FontManagerHelper`: registering subset fonts with QuestPDF's font
    manager and removing them again. The manager's `StyleSets` dictionary,
    keyed by family name, is the `styleSets` field of a `FontRegistry`; the
    family name QuestPDF reads out of a font file is the `familyName`
    parameter. */
module FontManagerHelper {
  import opened Wrappers
  import opened FamilyNames
  import opened NameEncodings
  import opened FontSubsetter

  /** The fonts registered under one family name, in registration order. */
  type StyleSets = map<string, seq<seq<byte>>>

  /** `StyleSets` without the families whose name matches. */
  function WithoutMatching(styleSets: StyleSets, matches: string -> bool): (r: StyleSets)
    ensures forall name :: name in r <==> name in styleSets && !matches(name)
    ensures forall name :: name in r ==> r[name] == styleSets[name]
  {
    map name | name in styleSets && !matches(name) :: styleSets[name]
  }

  /** The predicate `RemoveSubsetFontByName` passes: the exact name. */
  function NameMatcher(fontName: string): (matches: string -> bool)
    ensures forall name :: matches(name) <==> name == fontName
  {
    name => name == fontName
  }

  /** The predicate `RemoveSubsetFontsBySuffix` and `UpdateFont` pass: the
      name ends with a plus sign and the escaped suffix. */
  function SuffixMatcher(suffix: string): (matches: string -> bool)
    ensures forall name :: matches(name) <==> EndsWith(name, SubsetMarker(suffix))
  {
    name => EndsWith(name, SubsetMarker(suffix))
  }

  /** `FontManager.RegisterFont` for one font file. */
  function Register(styleSets: StyleSets, familyName: seq<byte> -> string, font: seq<byte>): (r: StyleSets)
    ensures r.Keys == styleSets.Keys + {familyName(font)}
    ensures r[familyName(font)] == (if familyName(font) in styleSets then styleSets[familyName(font)] else []) + [font]
    ensures forall name :: name in styleSets && name != familyName(font) ==> r[name] == styleSets[name]
  {
    var name := familyName(font);
    styleSets[name := (if name in styleSets then styleSets[name] else []) + [font]]
  }

  /** The registry after registering `fonts` one after the other. */
  function RegisterAll(styleSets: StyleSets, familyName: seq<byte> -> string, fonts: seq<seq<byte>>): (r: StyleSets)
    ensures r.Keys == styleSets.Keys + set i | 0 <= i < |fonts| :: familyName(fonts[i])
  {
    if |fonts| == 0 then styleSets
    else
      var init := fonts[..|fonts| - 1];
      var r := Register(RegisterAll(styleSets, familyName, init), familyName, fonts[|fonts| - 1]);
      assert (set i | 0 <= i < |fonts| :: familyName(fonts[i]))
          == (set i | 0 <= i < |init| :: familyName(init[i])) + {familyName(fonts[|fonts| - 1])} by {
        forall i | 0 <= i < |init| ensures init[i] == fonts[i] { }
      }
      r
  }

  class FontRegistry {
    var styleSets: StyleSets

    constructor (styleSets: StyleSets)
      ensures this.styleSets == styleSets
    {
      this.styleSets := styleSets;
    }

    /** `FontManager.RegisterFont(stream)`. */
    method RegisterTypeface(familyName: seq<byte> -> string, font: seq<byte>)
      modifies this
      ensures styleSets == Register(old(styleSets), familyName, font)
    {
      var name := familyName(font);
      var fonts := if name in styleSets then styleSets[name] else [];
      styleSets := styleSets[name := fonts + [font]];
    }

    /** The `foreach` over the subset fonts in `RegisterFont` and
        `UpdateFont`. */
    method RegisterSubsets(familyName: seq<byte> -> string, fonts: seq<seq<byte>>)
      modifies this
      ensures styleSets == RegisterAll(old(styleSets), familyName, fonts)
    {
      for i := 0 to |fonts|
        invariant styleSets == RegisterAll(old(styleSets), familyName, fonts[..i])
      {
        assert fonts[..i + 1][..i] == fonts[..i];
        RegisterTypeface(familyName, fonts[i]);
      }
      assert fonts[..|fonts|] == fonts;
    }

    /** `RemoveFontsInternal`: the matching names are collected first,
        then removed one by one. */
    method RemoveFontsInternal(matches: string -> bool)
      modifies this
      ensures styleSets == WithoutMatching(old(styleSets), matches)
    {
      var keysToRemove := set name | name in styleSets && matches(name);
      var pending := keysToRemove;
      while pending != {}
        invariant pending <= keysToRemove
        invariant styleSets.Keys == old(styleSets).Keys - (keysToRemove - pending)
        invariant forall name :: name in styleSets ==> styleSets[name] == old(styleSets)[name]
        decreases pending
      {
        var key :| key in pending;
        styleSets := styleSets - {key};
        pending := pending - {key};
      }
    }

    method RemoveSubsetFontByName(fontName: string)
      modifies this
      ensures styleSets == WithoutMatching(old(styleSets), NameMatcher(fontName))
    {
      RemoveFontsInternal(NameMatcher(fontName));
    }

    method RemoveSubsetFontsBySuffix(suffix: string)
      modifies this
      ensures styleSets == WithoutMatching(old(styleSets), SuffixMatcher(suffix))
    {
      var encodeSuffix := EncodeSuffix(suffix);
      RemoveFontsInternal(name => EndsWith(name, "+" + encodeSuffix));
    }

    /** `RegisterFont`: subset outside the registry, then register every
        subset; when subsetting fails nothing is registered. */
    method RegisterFont(sfntly: Sfntly, codecs: Codecs, familyName: seq<byte> -> string, fontBytes: seq<byte>,
                        subsetString: seq<CodeUnit>, suffix: Option<string>, includesAsciiPrintableCharacters: bool)
      returns (r: Result<seq<seq<byte>>, SubsetError>)
      modifies this
      ensures r.Failure? <==> SubsettingFails(sfntly, fontBytes, subsetString, includesAsciiPrintableCharacters)
      ensures r.Failure? ==> IsSubsettingError(sfntly, fontBytes, subsetString, includesAsciiPrintableCharacters, r.error)
      ensures r.Failure? ==> styleSets == old(styleSets)
      ensures r.Success? ==>
        && AreSubsetFonts(sfntly, codecs, fontBytes, subsetString, suffix, includesAsciiPrintableCharacters, r.value)
        && styleSets == RegisterAll(old(styleSets), familyName, r.value)
    {
      r := SubsetFonts(sfntly, codecs, fontBytes, subsetString, suffix, includesAsciiPrintableCharacters);
      if r.Success? {
        RegisterSubsets(familyName, r.value);
      }
    }

    /** `UpdateFont`: subset, remove every family carrying the suffix, then
        register the new subsets. */
    method UpdateFont(sfntly: Sfntly, codecs: Codecs, familyName: seq<byte> -> string, fontBytes: seq<byte>,
                      subsetString: seq<CodeUnit>, suffix: string, includesAsciiPrintableCharacters: bool)
      returns (r: Result<seq<seq<byte>>, SubsetError>)
      modifies this
      ensures r.Failure? <==> SubsettingFails(sfntly, fontBytes, subsetString, includesAsciiPrintableCharacters)
      ensures r.Failure? ==> IsSubsettingError(sfntly, fontBytes, subsetString, includesAsciiPrintableCharacters, r.error)
      ensures r.Failure? ==> styleSets == old(styleSets)
      ensures r.Success? ==>
        && AreSubsetFonts(sfntly, codecs, fontBytes, subsetString, Some(suffix), includesAsciiPrintableCharacters, r.value)
        && styleSets == RegisterAll(WithoutMatching(old(styleSets), SuffixMatcher(suffix)), familyName, r.value)
    {
      r := SubsetFonts(sfntly, codecs, fontBytes, subsetString, Some(suffix), includesAsciiPrintableCharacters);
      if r.Success? {
        RemoveFontsInternal(name => EndsWith(name, "+" + EncodeSuffix(suffix)));
        RegisterSubsets(familyName, r.value);
      }
    }
  }

  /** Removing a name removes that family and nothing else; an absent name
      leaves the registry as it was. */
  lemma RemoveByNameRemovesOnlyIt(styleSets: StyleSets, fontName: string)
    ensures WithoutMatching(styleSets, NameMatcher(fontName)) == styleSets - {fontName}
    ensures fontName !in styleSets ==> WithoutMatching(styleSets, NameMatcher(fontName)) == styleSets
  {
    var r := WithoutMatching(styleSets, NameMatcher(fontName));
    assert r.Keys == styleSets.Keys - {fontName};
  }

  /** Removal is idempotent. */
  lemma WithoutMatchingIdempotent(styleSets: StyleSets, matches: string -> bool)
    ensures WithoutMatching(WithoutMatching(styleSets, matches), matches) == WithoutMatching(styleSets, matches)
  {
  }

  /** A family named by `GetSubsetFontFamilyName(originalName, built)`
      survives a removal by suffix exactly when the suffix is not the one
      it was built with. */
  lemma SubsetNameRemovedBySuffix(styleSets: StyleSets, originalName: string, built: Option<string>, suffix: string)
    requires GetSubsetFontFamilyName(originalName, built) in styleSets
    ensures var name := GetSubsetFontFamilyName(originalName, built);
      name in WithoutMatching(styleSets, SuffixMatcher(suffix)) <==> suffix != built.GetOr(DefaultSuffix)
  {
    SubsetNameMatchesOnlyItsSuffix(originalName, built, suffix);
  }

  /** Registering only adds: every family keeps its earlier fonts (as a
      prefix), and every registered font is listed under its family. */
  lemma {:induction false} RegisterAllOnlyAdds(styleSets: StyleSets, familyName: seq<byte> -> string, fonts: seq<seq<byte>>)
    ensures forall name :: name in styleSets ==>
              name in RegisterAll(styleSets, familyName, fonts)
              && styleSets[name] <= RegisterAll(styleSets, familyName, fonts)[name]
    ensures forall i :: 0 <= i < |fonts| ==>
              familyName(fonts[i]) in RegisterAll(styleSets, familyName, fonts)
              && fonts[i] in RegisterAll(styleSets, familyName, fonts)[familyName(fonts[i])]
  {
    if |fonts| > 0 {
      var init := fonts[..|fonts| - 1];
      var prior := RegisterAll(styleSets, familyName, init);
      var r := RegisterAll(styleSets, familyName, fonts);
      RegisterAllOnlyAdds(styleSets, familyName, init);
      forall name | name in prior ensures name in r && prior[name] <= r[name] {
      }
      forall i | 0 <= i < |fonts| ensures familyName(fonts[i]) in r && fonts[i] in r[familyName(fonts[i])] {
        if i < |fonts| - 1 {
          assert fonts[i] == init[i];
          assert prior[familyName(fonts[i])] <= r[familyName(fonts[i])];
        }
      }
    }
  }

  /** After `UpdateFont` no family of an earlier subset run with the same
      suffix is left, unless one of the new subsets brought it back. */
  lemma UpdateLeavesOnlyNewSubsets(styleSets: StyleSets, familyName: seq<byte> -> string, fonts: seq<seq<byte>>,
                                   suffix: string, name: string)
    requires name in RegisterAll(WithoutMatching(styleSets, SuffixMatcher(suffix)), familyName, fonts)
    requires SuffixMatcher(suffix)(name)
    ensures exists i :: 0 <= i < |fonts| && familyName(fonts[i]) == name
  {
    var kept := WithoutMatching(styleSets, SuffixMatcher(suffix));
    assert name !in kept;
  }
}
