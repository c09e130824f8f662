/** `GetBestCMap`: the `cmap` subtable glyph coverage is computed from. A
    Format 12 subtable (segmented coverage, 32-bit code points) is preferred
    to a Format 4 one (segment mapping to delta values, the BMP only). */
module CMapSelection {
  import opened Wrappers
  import opened FontModel

  const Format4: nat := 4
  const Format12: nat := 12

  /** The index of the first subtable of the given format, in table order. */
  function FirstWithFormat(cmaps: seq<CMapSubtable>, format: nat): (r: Option<nat>)
    ensures r.Some? ==> r.value < |cmaps| && cmaps[r.value].format == format
    ensures r.Some? ==> forall j :: 0 <= j < r.value ==> cmaps[j].format != format
    ensures r.None? ==> forall j :: 0 <= j < |cmaps| ==> cmaps[j].format != format
  {
    if cmaps == [] then None
    else if cmaps[0].format == format then Some(0)
    else
      match FirstWithFormat(cmaps[1..], format)
      case None => None
      case Some(i) => Some(i + 1)
  }

  /** The subtable GetBestCMap returns: the first Format 12, else the first
      Format 4, else none. */
  function BestCMap(cmaps: seq<CMapSubtable>): (r: Option<CMapSubtable>)
    ensures r.Some? ==> r.value in cmaps
    ensures r.Some? ==> r.value.format == Format12 || r.value.format == Format4
    ensures (exists j :: 0 <= j < |cmaps| && cmaps[j].format == Format12) ==>
              r.Some? && r.value.format == Format12
    ensures (exists j :: 0 <= j < |cmaps| && cmaps[j].format == Format4) ==> r.Some?
  {
    match FirstWithFormat(cmaps, Format12)
    case Some(i) => Some(cmaps[i])
    case None =>
      match FirstWithFormat(cmaps, Format4)
      case Some(i) => Some(cmaps[i])
      case None => None
  }

  /** A Format 12 subtable wins wherever it stands, even after a Format 4
      one, and it is the first Format 12 in table order. */
  lemma Format12Wins(cmaps: seq<CMapSubtable>, i: nat)
    requires i < |cmaps| && cmaps[i].format == Format12
    requires forall j :: 0 <= j < i ==> cmaps[j].format != Format12
    ensures BestCMap(cmaps) == Some(cmaps[i])
  {
    var first := FirstWithFormat(cmaps, Format12);
    assert first.Some?;
    assert first.value == i;
  }

  /** Without a Format 12 subtable, the first Format 4 one is chosen. */
  lemma Format4Fallback(cmaps: seq<CMapSubtable>, i: nat)
    requires forall j :: 0 <= j < |cmaps| ==> cmaps[j].format != Format12
    requires i < |cmaps| && cmaps[i].format == Format4
    requires forall j :: 0 <= j < i ==> cmaps[j].format != Format4
    ensures BestCMap(cmaps) == Some(cmaps[i])
  {
    var first := FirstWithFormat(cmaps, Format4);
    assert first.Some?;
    assert first.value == i;
  }

  /** With neither format there is no usable subtable, and the selected
      subtable, when there is one, is always of one of the two formats. */
  lemma NoUsableCMap(cmaps: seq<CMapSubtable>)
    ensures BestCMap(cmaps).None? <==>
              forall j :: 0 <= j < |cmaps| ==> cmaps[j].format !in {Format4, Format12}
    ensures BestCMap(cmaps).Some? ==> BestCMap(cmaps).value.format in {Format4, Format12}
  {
    if BestCMap(cmaps).None? {
      assert FirstWithFormat(cmaps, Format12).None?;
      assert FirstWithFormat(cmaps, Format4).None?;
    } else if FirstWithFormat(cmaps, Format12).Some? {
      var i := FirstWithFormat(cmaps, Format12).value;
      assert cmaps[i].format == Format12;
    } else {
      var i := FirstWithFormat(cmaps, Format4).value;
      assert cmaps[i].format == Format4;
    }
  }

  /** `GetBestCMap`: two passes over the subtables, each returning on the
      first match; None stands for null. */
  method GetBestCMap(cmaps: seq<CMapSubtable>) returns (best: Option<CMapSubtable>)
    ensures best == BestCMap(cmaps)
  {
    for i := 0 to |cmaps|
      invariant forall j :: 0 <= j < i ==> cmaps[j].format != Format12
    {
      if cmaps[i].format == Format12 {
        Format12Wins(cmaps, i);
        return Some(cmaps[i]);
      }
    }
    for i := 0 to |cmaps|
      invariant forall j :: 0 <= j < i ==> cmaps[j].format != Format4
    {
      if cmaps[i].format == Format4 {
        Format4Fallback(cmaps, i);
        return Some(cmaps[i]);
      }
    }
    NoUsableCMap(cmaps);
    return None;
  }
}
