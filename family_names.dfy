/** The family name a subset font is given: the original family name, `+`,
    and the percent-encoded suffix. The same pattern is what the registry
    helpers later look for when they remove subset fonts. */
module FamilyNames {
  import opened Wrappers
  import UriEscape

  const DefaultSuffix: string := "subset"

  /** .NET's `string.EndsWith`, compared character by character. */
  function EndsWith(s: string, suffix: string): (b: bool)
    ensures b <==> |suffix| <= |s| && s == s[..|s| - |suffix|] + suffix
    ensures b ==> forall k :: 0 <= k < |suffix| ==> s[|s| - |suffix| + k] == suffix[k]
  {
    |suffix| <= |s| && s[|s| - |suffix|..] == suffix
  }

  /** `EncodeSuffix`: `Uri.EscapeDataString`. */
  function EncodeSuffix(suffix: string): (r: string)
    ensures '+' !in r
    ensures UriEscape.UnescapeDataString(r) == Some(suffix)
  {
    var r := UriEscape.EscapeDataString(suffix);
    UriEscape.EscapedHasNoPlus(r);
    UriEscape.UnescapeEscape(suffix);
    r
  }

  /** What the name of a subset font made with `suffix` ends with. */
  function SubsetMarker(suffix: string): (r: string)
    ensures |r| >= 1 && r[0] == '+'
    ensures '+' !in r[1..]
    ensures UriEscape.UnescapeDataString(r[1..]) == Some(suffix)
  {
    var r := "+" + EncodeSuffix(suffix);
    assert r[1..] == EncodeSuffix(suffix);
    r
  }

  /** `GetSubsetFontFamilyName`; a missing suffix means "subset". */
  function GetSubsetFontFamilyName(originalName: string, suffix: Option<string>): (r: string)
    ensures |r| > |originalName| && r[..|originalName|] == originalName
    ensures EndsWith(r, SubsetMarker(suffix.GetOr(DefaultSuffix)))
    ensures r[|originalName|] == '+'
    ensures '+' !in r[|originalName| + 1..]
  {
    var r := originalName + SubsetMarker(suffix.GetOr(DefaultSuffix));
    assert r[|originalName| + 1..] == EncodeSuffix(suffix.GetOr(DefaultSuffix));
    r
  }

  /** The position of the last `+` in `s`, or -1. */
  function LastPlus(s: string): (i: int)
    ensures -1 <= i < |s|
  {
    if s == [] then -1
    else if s[|s| - 1] == '+' then |s| - 1
    else LastPlus(s[..|s| - 1])
  }

  lemma {:induction false} LastPlusBeforeTail(head: string, tail: string)
    requires '+' !in tail
    ensures LastPlus(head + "+" + tail) == |head|
    decreases |tail|
  {
    var s := head + "+" + tail;
    if tail != [] {
      assert s[|s| - 1] == tail[|tail| - 1];
      assert s[..|s| - 1] == head + "+" + tail[..|tail| - 1];
      LastPlusBeforeTail(head, tail[..|tail| - 1]);
    }
  }

  /** A name with a single `+` before a `+`-free tail ends with `+e`, for
      a `+`-free `e`, only when `e` is that tail. */
  lemma MarkerDeterminesTail(head: string, tail: string, e: string)
    requires '+' !in tail && '+' !in e
    requires EndsWith(head + "+" + tail, "+" + e)
    ensures e == tail
  {
    var name := head + "+" + tail;
    var start := |name| - |e| - 1;
    assert name[start..] == "+" + e;
    assert name == name[..start] + "+" + e;
    LastPlusBeforeTail(name[..start], e);
    LastPlusBeforeTail(head, tail);
    assert e == name[start + 1..];
    assert tail == name[|head| + 1..];
  }

  /** The name GetSubsetFontFamilyName builds is recognised by the removal
      predicate of exactly one suffix, the one it was built with: the
      encoded suffix holds no `+`, so the last `+` of the name is the one
      the name was built with, and escaping is injective. */
  lemma SubsetNameMatchesOnlyItsSuffix(originalName: string, built: Option<string>, suffix: string)
    ensures EndsWith(GetSubsetFontFamilyName(originalName, built), SubsetMarker(suffix))
            <==> suffix == built.GetOr(DefaultSuffix)
  {
    var name := GetSubsetFontFamilyName(originalName, built);
    var e := EncodeSuffix(suffix);
    var tail := EncodeSuffix(built.GetOr(DefaultSuffix));
    SubsetNameShape(originalName, built);
    if suffix == built.GetOr(DefaultSuffix) {
      assert EndsWith(name, SubsetMarker(suffix));
    }
    if EndsWith(name, SubsetMarker(suffix)) {
      assert SubsetMarker(suffix) == "+" + e;
      MarkerDeterminesTail(originalName, tail, e);
      UriEscape.EscapeInjective(suffix, built.GetOr(DefaultSuffix));
    }
  }

  /** Helper: the built name is the original name, `+` and the encoded
      suffix. */
  lemma SubsetNameShape(originalName: string, built: Option<string>)
    ensures GetSubsetFontFamilyName(originalName, built)
            == originalName + "+" + EncodeSuffix(built.GetOr(DefaultSuffix))
  {
    var tail := EncodeSuffix(built.GetOr(DefaultSuffix));
    assert originalName + ("+" + tail) == originalName + "+" + tail;
  }
}
