/** `GetGlyphCoverage` and `TouchGlyph`: the glyph ids a subset keeps. The
    coverage starts from .notdef (glyph 0) and the glyph each code unit of
    the text maps to, and follows composite glyphs to their components, depth
    first, with the coverage set itself as the visited set, so that cyclic or
    self-referencing composites end the search instead of looping. */
module GlyphCoverage {
  import opened Wrappers
  import opened FontModel
  import opened CMapSelection

  datatype CoverageError =
    | NoUsableCMap     // GetBestCMap found neither Format 12 nor Format 4
    | GlyphOutOfRange  // a glyph id the search reached is not in `loca`

  /** Glyph `a` is a composite that uses glyph `b`. */
  ghost predicate Edge(glyphs: seq<Glyph>, a: nat, b: nat) {
    a < |glyphs| && glyphs[a].Composite? && b in glyphs[a].components
  }

  /** A walk along component references on which every glyph but the last
      lies outside `visited`: the search stops at a glyph already visited. */
  ghost predicate IsWalk(glyphs: seq<Glyph>, p: seq<nat>, visited: set<nat>) {
    |p| > 0 && forall k :: 0 <= k < |p| - 1 ==> p[k] !in visited && Edge(glyphs, p[k], p[k + 1])
  }

  /** A search from `root` that treats `visited` as already done reaches `x`. */
  ghost predicate Explored(glyphs: seq<Glyph>, root: nat, visited: set<nat>, x: nat) {
    exists p :: IsWalk(glyphs, p, visited) && p[0] == root && p[|p| - 1] == x
  }

  /** Searches from each of `roots` in turn reach `x`. */
  ghost predicate ReachedFrom(glyphs: seq<Glyph>, roots: seq<nat>, visited: set<nat>, x: nat) {
    exists i :: 0 <= i < |roots| && Explored(glyphs, roots[i], visited, x)
  }

  /** The searches reach a glyph id with no `glyf` entry. */
  ghost predicate OutOfRangeReached(glyphs: seq<Glyph>, roots: seq<nat>, visited: set<nat>) {
    exists x :: x !in visited && x >= |glyphs| && ReachedFrom(glyphs, roots, visited, x)
  }

  /** Every glyph of `covered` outside `visited` exists, and so do the
      components of each composite among them, all in `covered`. */
  ghost predicate ClosedBeyond(glyphs: seq<Glyph>, visited: set<nat>, covered: set<nat>) {
    forall x :: x in covered && x !in visited ==>
      x < |glyphs|
      && (glyphs[x].Composite? ==>
            forall j :: 0 <= j < |glyphs[x].components| ==> glyphs[x].components[j] in covered)
  }

  /** The ids 0 .. n-1: the glyph ids of a font with n glyphs. */
  ghost function IdsBelow(n: nat): (ids: set<nat>)
    ensures forall i: nat :: i in ids <==> i < n
  {
    if n == 0 then {} else IdsBelow(n - 1) + {n - 1}
  }

  predicate StrictlyAscending(list: seq<nat>) {
    forall i, j :: 0 <= i < j < |list| ==> list[i] < list[j]
  }

  lemma ExploredSelf(glyphs: seq<Glyph>, root: nat, visited: set<nat>)
    ensures Explored(glyphs, root, visited, root)
  {
    assert IsWalk(glyphs, [root], visited);
  }

  /** A search from `a` passes through its component `b` and goes on from
      there; it visits less on the way, so it reaches all `b`'s search does. */
  lemma ExploredPrepend(glyphs: seq<Glyph>, a: nat, b: nat, visited: set<nat>, later: set<nat>, x: nat)
    requires a !in visited && Edge(glyphs, a, b) && visited <= later
    requires Explored(glyphs, b, later, x)
    ensures Explored(glyphs, a, visited, x)
  {
    var p :| IsWalk(glyphs, p, later) && p[0] == b && p[|p| - 1] == x;
    var q := [a] + p;
    assert forall k :: 1 <= k < |q| - 1 ==> q[k] == p[k - 1] && q[k + 1] == p[k];
    assert IsWalk(glyphs, q, visited);
  }

  lemma ExploredAppend(glyphs: seq<Glyph>, root: nat, visited: set<nat>, x: nat, y: nat)
    requires Explored(glyphs, root, visited, x) && x !in visited && Edge(glyphs, x, y)
    ensures Explored(glyphs, root, visited, y)
  {
    var p :| IsWalk(glyphs, p, visited) && p[0] == root && p[|p| - 1] == x;
    var q := p + [y];
    assert q[..|p|] == p;
    assert IsWalk(glyphs, q, visited);
  }

  /** A set that contains the root and is closed beyond `visited` contains
      everything a search from the root reaches. */
  lemma ExploredWithin(glyphs: seq<Glyph>, visited: set<nat>, covered: set<nat>, root: nat, x: nat)
    requires visited <= covered && root in covered && ClosedBeyond(glyphs, visited, covered)
    requires Explored(glyphs, root, visited, x)
    ensures x in covered
  {
    var p :| IsWalk(glyphs, p, visited) && p[0] == root && p[|p| - 1] == x;
    var k := 0;
    while k < |p| - 1
      invariant 0 <= k < |p| && p[k] in covered
    {
      assert Edge(glyphs, p[k], p[k + 1]) && p[k] !in visited;
      var cs := glyphs[p[k]].components;
      var j :| 0 <= j < |cs| && cs[j] == p[k + 1];
      k := k + 1;
    }
  }

  /** `TouchGlyph`: adds `glyphId` and, for a composite, everything its
      components lead to. `coverage` is the HashSet the source mutates;
      the new set comes back in `covered`. `ok` is false when a glyph id
      was reached that GetGlyph cannot read (the source throws there). */
  method TouchGlyph(font: Font, coverage: set<nat>, glyphId: nat) returns (covered: set<nat>, ok: bool)
    ensures coverage <= covered && glyphId in covered
    ensures glyphId in coverage ==> covered == coverage && ok
    ensures forall x :: x in covered && x !in coverage ==> Explored(font.glyphs, glyphId, coverage, x)
    ensures ok ==> ClosedBeyond(font.glyphs, coverage, covered)
    ensures !ok ==> exists x :: x !in coverage && x >= |font.glyphs|
                                && Explored(font.glyphs, glyphId, coverage, x)
    decreases IdsBelow(|font.glyphs|) - coverage
  {
    if glyphId in coverage {
      return coverage, true;
    }
    covered := coverage + {glyphId};
    ExploredSelf(font.glyphs, glyphId, coverage);
    var glyph := GetGlyph(font, glyphId);
    if glyph.None? {
      assert glyphId !in coverage && glyphId >= |font.glyphs| && Explored(font.glyphs, glyphId, coverage, glyphId);
      return covered, false;
    }
    if !glyph.value.Composite? {
      return covered, true;
    }
    var components := glyph.value.components;
    for i := 0 to |components|
      invariant coverage + {glyphId} <= covered
      invariant forall j :: 0 <= j < i ==> components[j] in covered
      invariant ClosedBeyond(font.glyphs, coverage + {glyphId}, covered)
      invariant forall x :: x in covered && x !in coverage ==> Explored(font.glyphs, glyphId, coverage, x)
    {
      assert Edge(font.glyphs, glyphId, components[i]);
      assert glyphId in IdsBelow(|font.glyphs|) - coverage;
      var sub, subOk := TouchGlyph(font, covered, components[i]);
      forall x | x in sub && x !in covered
        ensures Explored(font.glyphs, glyphId, coverage, x)
      {
        ExploredPrepend(font.glyphs, glyphId, components[i], coverage, covered, x);
      }
      if !subOk {
        ghost var x :| x !in covered && x >= |font.glyphs| && Explored(font.glyphs, components[i], covered, x);
        ExploredPrepend(font.glyphs, glyphId, components[i], coverage, covered, x);
        return sub, false;
      }
      covered := sub;
    }
    ok := true;
  }

  /** The state of the loop over the text after its first `n` roots: the
      coverage holds `visited`, the roots done, and only glyphs their
      searches reached, all of them closed. */
  ghost predicate Progress(glyphs: seq<Glyph>, visited: set<nat>, roots: seq<nat>, n: nat, covered: set<nat>) {
    && n <= |roots|
    && visited <= covered
    && ClosedBeyond(glyphs, visited, covered)
    && (forall j :: 0 <= j < n ==> roots[j] in covered)
    && (forall x :: x in covered && x !in visited ==>
          exists j :: 0 <= j < n && Explored(glyphs, roots[j], visited, x))
  }

  lemma ProgressStart(glyphs: seq<Glyph>, visited: set<nat>, roots: seq<nat>)
    ensures Progress(glyphs, visited, roots, 0, visited)
  {
  }

  /** One more successful TouchGlyph keeps the loop's state. */
  lemma ProgressStep(glyphs: seq<Glyph>, visited: set<nat>, roots: seq<nat>, n: nat,
                     covered: set<nat>, next: set<nat>)
    requires Progress(glyphs, visited, roots, n, covered) && n < |roots|
    requires covered <= next && roots[n] in next && ClosedBeyond(glyphs, covered, next)
    requires forall x :: x in next && x !in covered ==> Explored(glyphs, roots[n], covered, x)
    ensures Progress(glyphs, visited, roots, n + 1, next)
  {
    ClosedBeyondCompose(glyphs, visited, covered, next);
    forall x | x in next && x !in visited
      ensures exists j :: 0 <= j < n + 1 && Explored(glyphs, roots[j], visited, x)
    {
      if x !in covered {
        ExploredFromLess(glyphs, roots[n], visited, covered, x);
      } else {
        var j :| 0 <= j < n && Explored(glyphs, roots[j], visited, x);
      }
    }
  }

  /** Closure beyond `visited` up to `covered`, then beyond `covered` up to
      `next`, is closure beyond `visited` up to `next`. */
  lemma ClosedBeyondCompose(glyphs: seq<Glyph>, visited: set<nat>, covered: set<nat>, next: set<nat>)
    requires covered <= next
    requires ClosedBeyond(glyphs, visited, covered) && ClosedBeyond(glyphs, covered, next)
    ensures ClosedBeyond(glyphs, visited, next)
  {
    forall x | x in next && x !in visited
      ensures x < |glyphs|
      ensures glyphs[x].Composite? ==>
                forall j :: 0 <= j < |glyphs[x].components| ==> glyphs[x].components[j] in next
    {
      if x in covered {
        assert x < |glyphs|;
      }
    }
  }

  /** A search that treats more glyphs as done is also a search that
      treats fewer as done. */
  lemma ExploredFromLess(glyphs: seq<Glyph>, root: nat, visited: set<nat>, later: set<nat>, x: nat)
    requires visited <= later && Explored(glyphs, root, later, x)
    ensures Explored(glyphs, root, visited, x)
  {
    var p :| IsWalk(glyphs, p, later) && p[0] == root && p[|p| - 1] == x;
    assert IsWalk(glyphs, p, visited);
  }

  /** A failed TouchGlyph means a search reached a missing glyph. */
  lemma ProgressFail(glyphs: seq<Glyph>, visited: set<nat>, roots: seq<nat>, n: nat,
                     covered: set<nat>, x: nat)
    requires Progress(glyphs, visited, roots, n, covered) && n < |roots|
    requires x !in covered && x >= |glyphs| && Explored(glyphs, roots[n], covered, x)
    ensures OutOfRangeReached(glyphs, roots, visited)
  {
    ExploredFromLess(glyphs, roots[n], visited, covered, x);
  }

  /** After all roots, the coverage is exactly `visited` plus what the
      searches reached, and no search reached a missing glyph. */
  lemma ProgressComplete(glyphs: seq<Glyph>, visited: set<nat>, roots: seq<nat>, covered: set<nat>)
    requires Progress(glyphs, visited, roots, |roots|, covered)
    ensures forall x :: x in covered <==> x in visited || ReachedFrom(glyphs, roots, visited, x)
    ensures !OutOfRangeReached(glyphs, roots, visited)
  {
    forall x | ReachedFrom(glyphs, roots, visited, x)
      ensures x in covered
    {
      var i :| 0 <= i < |roots| && Explored(glyphs, roots[i], visited, x);
      ExploredWithin(glyphs, visited, covered, roots[i], x);
    }
  }

  /** The glyph each code unit of the text maps to. `c & 0xffff` in the
      source leaves a 16-bit code unit unchanged. */
  function MappedGlyphs(cmap: CMapSubtable, text: seq<CodeUnit>): (ids: seq<nat>)
    ensures |ids| == |text|
    ensures forall i :: 0 <= i < |text| ==> ids[i] == GlyphIdOf(cmap, text[i])
  {
    if text == [] then [] else [GlyphIdOf(cmap, text[0])] + MappedGlyphs(cmap, text[1..])
  }

  /** `java.util.Collections.sort` of the coverage: the set as a list in
      ascending order, the least id first. */
  function SortCoverage(coverage: set<nat>): (list: seq<nat>)
    ensures StrictlyAscending(list)
    ensures forall x :: x in list <==> x in coverage
    decreases coverage
  {
    if coverage == {} then []
    else
      var m := Least(coverage);
      var rest := SortCoverage(coverage - {m});
      PrependLeast(m, rest);
      [m] + rest
  }

  /** The least id of a non-empty set. */
  function Least(s: set<nat>): (m: nat)
    requires s != {}
    ensures m in s && forall y :: y in s ==> m <= y
  {
    SmallestExists(s);
    var m :| m in s && forall y :: y in s ==> m <= y; m
  }

  /** Helper: an id below every element extends an ascending list at the
      front. */
  lemma PrependLeast(m: nat, list: seq<nat>)
    requires StrictlyAscending(list) && forall x :: x in list ==> m < x
    ensures StrictlyAscending([m] + list)
  {
    forall j | 0 < j < |[m] + list|
      ensures ([m] + list)[0] < ([m] + list)[j]
    {
      assert ([m] + list)[j] == list[j - 1] && list[j - 1] in list;
    }
  }

  lemma SmallestExists(s: set<nat>)
    requires s != {}
    ensures exists m :: m in s && forall y :: y in s ==> m <= y
  {
    var x :| x in s;
    SmallestAtMost(s, x);
  }

  /** Descending from any element reaches the least one. */
  lemma {:induction false} SmallestAtMost(s: set<nat>, n: nat)
    requires n in s
    ensures exists m :: m in s && forall y :: y in s ==> m <= y
    decreases n
  {
    if y :| y in s && y < n {
      SmallestAtMost(s, y);
    } else {
      assert forall y :: y in s ==> n <= y;
    }
  }

  /** Two ascending lists with the same elements are the same list. */
  lemma {:induction false} AscendingUnique(a: seq<nat>, b: seq<nat>)
    requires StrictlyAscending(a) && StrictlyAscending(b)
    requires forall x :: x in a <==> x in b
    ensures a == b
  {
    if a != [] && b != [] {
      AscendingHeads(a, b);
      AscendingTails(a, b);
      AscendingTails(b, a);
      AscendingUnique(a[1..], b[1..]);
      assert a == [a[0]] + a[1..] && b == [b[0]] + b[1..];
    } else {
      SameElementsBothEmpty(a, b);
    }
  }

  /** Helper: the least elements of two ascending lists with the same
      elements agree. */
  lemma AscendingHeads(a: seq<nat>, b: seq<nat>)
    requires StrictlyAscending(a) && StrictlyAscending(b) && a != [] && b != []
    requires a[0] in b && b[0] in a
    ensures a[0] == b[0]
  {
    var i :| 0 <= i < |a| && a[i] == b[0];
    var j :| 0 <= j < |b| && b[j] == a[0];
    AscendingFirstIsLeast(a, i);
    AscendingFirstIsLeast(b, j);
  }

  /** Helper: with equal heads, what follows the head in `a` follows it
      in `b`. */
  lemma AscendingTails(a: seq<nat>, b: seq<nat>)
    requires StrictlyAscending(a) && a != [] && b != [] && a[0] == b[0]
    requires forall x :: x in a ==> x in b
    ensures forall x :: x in a[1..] ==> x in b[1..]
  {
    forall x | x in a[1..]
      ensures x in b[1..]
    {
      var k :| 1 <= k < |a| && a[k] == x;
      assert x in a && x != b[0];
      var l :| 0 <= l < |b| && b[l] == x;
      assert b[1..][l - 1] == x;
    }
  }

  lemma SameElementsBothEmpty(a: seq<nat>, b: seq<nat>)
    requires forall x :: x in a <==> x in b
    ensures a == [] <==> b == []
  {
    if a != [] {
      assert a[0] in b;
    }
    if b != [] {
      assert b[0] in a;
    }
  }

  /** What the source's GetGlyphCoverage returns: .NOTDEF is put in the
      coverage directly, so the searches start from the mapped glyphs
      with glyph 0 already visited. */
  ghost predicate IsCoverageAsWritten(font: Font, text: seq<CodeUnit>, list: seq<nat>) {
    && BestCMap(font.cmaps).Some?
    && !OutOfRangeReached(font.glyphs, MappedGlyphs(BestCMap(font.cmaps).value, text), {0})
    && StrictlyAscending(list)
    && forall x :: x in list <==>
         x == 0 || ReachedFrom(font.glyphs, MappedGlyphs(BestCMap(font.cmaps).value, text), {0}, x)
  }

  ghost predicate FailsAsWritten(font: Font, text: seq<CodeUnit>)
    requires BestCMap(font.cmaps).Some?
  {
    OutOfRangeReached(font.glyphs, MappedGlyphs(BestCMap(font.cmaps).value, text), {0})
  }

  /** The source's GetGlyphCoverage throws: no usable cmap, or a search
      reaches a glyph id with no glyph. */
  ghost predicate CoverageFailsAsWritten(font: Font, text: seq<CodeUnit>) {
    || BestCMap(font.cmaps).None?
    || FailsAsWritten(font, text)
  }

  /** `GetGlyphCoverage` as the source writes it: glyph 0 is added to the
      coverage without TouchGlyph, then every code unit's glyph is touched
      in text order, and the set is sorted. */
  method GetGlyphCoverageAsWritten(font: Font, text: seq<CodeUnit>) returns (r: Result<seq<nat>, CoverageError>)
    ensures r == Failure(NoUsableCMap) <==> BestCMap(font.cmaps).None?
    ensures r == Failure(GlyphOutOfRange) <==> BestCMap(font.cmaps).Some? && FailsAsWritten(font, text)
    ensures r.Success? <==> !CoverageFailsAsWritten(font, text)
    ensures r.Success? ==> IsCoverageAsWritten(font, text, r.value)
  {
    var cmap := GetBestCMap(font.cmaps);
    if cmap.None? {
      return Failure(NoUsableCMap);
    }
    ghost var roots := MappedGlyphs(cmap.value, text);
    var coverage: set<nat> := {0};
    ProgressStart(font.glyphs, {0}, roots);
    for i := 0 to |text|
      invariant Progress(font.glyphs, {0}, roots, i, coverage)
    {
      var glyphId := GlyphIdOf(cmap.value, text[i]);
      var covered, ok := TouchGlyph(font, coverage, glyphId);
      if !ok {
        ghost var x :| x !in coverage && x >= |font.glyphs| && Explored(font.glyphs, glyphId, coverage, x);
        ProgressFail(font.glyphs, {0}, roots, i, coverage, x);
        return Failure(GlyphOutOfRange);
      }
      ProgressStep(font.glyphs, {0}, roots, i, coverage, covered);
      coverage := covered;
    }
    ProgressComplete(font.glyphs, {0}, roots, coverage);
    var list := SortCoverage(coverage);
    return Success(list);
  }

  /** The coverage with the closure completed for glyph 0 as well: the
      searches start from .notdef and from every mapped glyph. */
  ghost function CoverageRoots(font: Font, text: seq<CodeUnit>): seq<nat>
    requires BestCMap(font.cmaps).Some?
  {
    [0] + MappedGlyphs(BestCMap(font.cmaps).value, text)
  }

  ghost predicate IsCoverage(font: Font, text: seq<CodeUnit>, list: seq<nat>) {
    && BestCMap(font.cmaps).Some?
    && !OutOfRangeReached(font.glyphs, CoverageRoots(font, text), {})
    && StrictlyAscending(list)
    && forall x :: x in list <==> ReachedFrom(font.glyphs, CoverageRoots(font, text), {}, x)
  }

  ghost predicate CoverageFails(font: Font, text: seq<CodeUnit>) {
    || BestCMap(font.cmaps).None?
    || OutOfRangeReached(font.glyphs, CoverageRoots(font, text), {})
  }

  /** GetGlyphCoverage with glyph 0 touched like every other glyph, so that
      the components of a composite .notdef are kept too. */
  method GetGlyphCoverage(font: Font, text: seq<CodeUnit>) returns (r: Result<seq<nat>, CoverageError>)
    ensures r == Failure(NoUsableCMap) <==> BestCMap(font.cmaps).None?
    ensures r == Failure(GlyphOutOfRange) <==> BestCMap(font.cmaps).Some? && CoverageFails(font, text)
    ensures r.Success? <==> !CoverageFails(font, text)
    ensures r.Success? ==> IsCoverage(font, text, r.value)
  {
    var cmap := GetBestCMap(font.cmaps);
    if cmap.None? {
      return Failure(NoUsableCMap);
    }
    ghost var roots := CoverageRoots(font, text);
    ProgressStart(font.glyphs, {}, roots);
    var coverage, ok := TouchGlyph(font, {}, 0);
    if !ok {
      ghost var x :| x !in {} && x >= |font.glyphs| && Explored(font.glyphs, 0, {}, x);
      ProgressFail(font.glyphs, {}, roots, 0, {}, x);
      return Failure(GlyphOutOfRange);
    }
    ProgressStep(font.glyphs, {}, roots, 0, {}, coverage);
    for i := 0 to |text|
      invariant Progress(font.glyphs, {}, roots, i + 1, coverage)
    {
      var glyphId := GlyphIdOf(cmap.value, text[i]);
      assert roots[i + 1] == glyphId;
      var covered, ok := TouchGlyph(font, coverage, glyphId);
      if !ok {
        ghost var x :| x !in coverage && x >= |font.glyphs| && Explored(font.glyphs, glyphId, coverage, x);
        ProgressFail(font.glyphs, {}, roots, i + 1, coverage, x);
        return Failure(GlyphOutOfRange);
      }
      ProgressStep(font.glyphs, {}, roots, i + 1, coverage, covered);
      coverage := covered;
    }
    ProgressComplete(font.glyphs, {}, roots, coverage);
    var list := SortCoverage(coverage);
    return Success(list);
  }

  /** .notdef is in the coverage, so it is the first element. */
  lemma NotdefFirst(list: seq<nat>)
    requires StrictlyAscending(list) && 0 in list
    ensures |list| > 0 && list[0] == 0
  {
    var k :| 0 <= k < |list| && list[k] == 0;
    AscendingFirstIsLeast(list, k);
  }

  lemma AscendingFirstIsLeast(list: seq<nat>, k: nat)
    requires StrictlyAscending(list) && k < |list|
    ensures list[0] <= list[k]
  {
  }

  /** Every code unit's glyph is covered (both versions). */
  lemma MappedGlyphsCovered(font: Font, text: seq<CodeUnit>, list: seq<nat>, i: nat)
    requires IsCoverageAsWritten(font, text, list) || IsCoverage(font, text, list)
    requires i < |text|
    ensures GlyphIdOf(BestCMap(font.cmaps).value, text[i]) in list
    ensures 0 in list && list[0] == 0
  {
    var cmap := BestCMap(font.cmaps).value;
    var roots := MappedGlyphs(cmap, text);
    var g := GlyphIdOf(cmap, text[i]);
    ExploredSelf(font.glyphs, g, {0});
    ExploredSelf(font.glyphs, g, {});
    ExploredSelf(font.glyphs, 0, {});
    if IsCoverage(font, text, list) {
      assert CoverageRoots(font, text)[i + 1] == g;
      assert CoverageRoots(font, text)[0] == 0;
      assert ReachedFrom(font.glyphs, CoverageRoots(font, text), {}, 0);
    } else {
      assert roots[i] == g;
    }
    NotdefFirst(list);
  }

  /** Closure of the corrected coverage: every covered glyph exists, and
      every component of a covered composite is covered. */
  lemma CoverageIsClosed(font: Font, text: seq<CodeUnit>, list: seq<nat>, x: nat)
    requires IsCoverage(font, text, list) && x in list
    ensures x < |font.glyphs|
    ensures font.glyphs[x].Composite? ==> forall c :: c in font.glyphs[x].components ==> c in list
  {
    var roots := CoverageRoots(font, text);
    var i :| 0 <= i < |roots| && Explored(font.glyphs, roots[i], {}, x);
    assert ReachedFrom(font.glyphs, roots, {}, x);
    forall c | font.glyphs[x].Composite? && c in font.glyphs[x].components
      ensures c in list
    {
      ExploredAppend(font.glyphs, roots[i], {}, x, c);
    }
  }

  /** Closure of the coverage as written holds for every covered glyph
      except .notdef, whose components are never searched. */
  lemma AsWrittenClosedExceptNotdef(font: Font, text: seq<CodeUnit>, list: seq<nat>, x: nat)
    requires IsCoverageAsWritten(font, text, list) && x in list && x != 0
    ensures x < |font.glyphs|
    ensures font.glyphs[x].Composite? ==> forall c :: c in font.glyphs[x].components ==> c in list
  {
    var roots := MappedGlyphs(BestCMap(font.cmaps).value, text);
    var i :| 0 <= i < |roots| && Explored(font.glyphs, roots[i], {0}, x);
    assert x !in {0} && ReachedFrom(font.glyphs, roots, {0}, x);
    forall c | font.glyphs[x].Composite? && c in font.glyphs[x].components
      ensures c in list
    {
      ExploredAppend(font.glyphs, roots[i], {0}, x, c);
    }
  }

  /** The coverage is determined by the font and the text alone. */
  lemma CoverageUnique(font: Font, text: seq<CodeUnit>, a: seq<nat>, b: seq<nat>)
    requires IsCoverage(font, text, a) && IsCoverage(font, text, b)
    ensures a == b
  {
    AscendingUnique(a, b);
  }

  /** The coverage as written is determined by the font and the text
      alone, too. */
  lemma AsWrittenCoverageUnique(font: Font, text: seq<CodeUnit>, a: seq<nat>, b: seq<nat>)
    requires IsCoverageAsWritten(font, text, a) && IsCoverageAsWritten(font, text, b)
    ensures a == b
  {
    AscendingUnique(a, b);
  }

  /** A font whose .notdef is a composite of glyph 1. */
  const CompositeNotdefFont: Font :=
    Font([CMapSubtable(3, 1, Format4, map[])], [Composite([1]), Simple], Some([]))

  /** On that font and an empty text the source succeeds with coverage [0]:
      glyph 1, a component of glyph 0, is left out. */
  lemma AsWrittenDropsNotdefComponents(list: seq<nat>)
    requires IsCoverageAsWritten(CompositeNotdefFont, [], list)
    ensures list == [0]
    ensures CompositeNotdefFont.glyphs[0] == Composite([1]) && 1 !in list
  {
    AscendingUnique(list, [0]);
  }

  lemma AsWrittenSucceedsOnCompositeNotdef()
    ensures BestCMap(CompositeNotdefFont.cmaps).Some?
    ensures !FailsAsWritten(CompositeNotdefFont, [])
  {
    assert BestCMap(CompositeNotdefFont.cmaps) == Some(CompositeNotdefFont.cmaps[0]);
  }

  /** The corrected coverage of the same font keeps glyph 1. */
  lemma CoverageKeepsNotdefComponents(list: seq<nat>)
    requires IsCoverage(CompositeNotdefFont, [], list)
    ensures list == [0, 1]
  {
    var glyphs := CompositeNotdefFont.glyphs;
    CompositeNotdefRoots();
    CompositeNotdefReaches();
    forall x | x in list
      ensures x == 0 || x == 1
    {
      ExploredWithin(glyphs, {}, {0, 1}, 0, x);
    }
    var roots := CoverageRoots(CompositeNotdefFont, []);
    assert roots[0] == 0;
    assert ReachedFrom(glyphs, roots, {}, 0) && ReachedFrom(glyphs, roots, {}, 1);
    AscendingUnique(list, [0, 1]);
  }

  /** Helper: the searches on that font and an empty text start from
      .notdef alone. */
  lemma CompositeNotdefRoots()
    ensures BestCMap(CompositeNotdefFont.cmaps).Some?
    ensures CoverageRoots(CompositeNotdefFont, []) == [0]
  {
    AsWrittenSucceedsOnCompositeNotdef();
  }

  /** Helper: from .notdef the search reaches glyphs 0 and 1 and nothing
      outside them. */
  lemma CompositeNotdefReaches()
    ensures Explored(CompositeNotdefFont.glyphs, 0, {}, 0)
    ensures Explored(CompositeNotdefFont.glyphs, 0, {}, 1)
    ensures ClosedBeyond(CompositeNotdefFont.glyphs, {}, {0, 1})
  {
    var glyphs := CompositeNotdefFont.glyphs;
    ExploredSelf(glyphs, 0, {});
    assert IsWalk(glyphs, [0, 1], {});
  }
}
