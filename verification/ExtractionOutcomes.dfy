/**
  Shape extraction, and what it must return, said of sets of pixels and of plain numbers (raster-components.ts,
  extractShapes): which components are useful, when the image is refused, and what each candidate is.
 */
module ExtractionOutcomes {
  import opened Outcomes
  import opened Numbers
  import opened Raster
  import opened Grids
  import opened Components
  import opened Contour
  import opened ContourProperties
  import opened ContourFits
  import opened ContourMeaning
  import opened Candidates
  import Decimal

  // ---------- Components as sets of pixels

  ghost predicate IsComponentSet(g: Grid, s: set<int>)
    requires g.Valid()
  {
    exists i :: g.Node(i) && s == g.Component(i)
  }

  /** The least and greatest column and row of a set of pixels. */
  ghost predicate HasBounds(g: Grid, s: set<int>, left: int, right: int, top: int, bottom: int)
    requires g.Valid()
  {
    && IsLeast(left, set j | j in s :: j % g.width) && IsGreatest(right, set j | j in s :: j % g.width)
    && IsLeast(top, set j | j in s :: j / g.width) && IsGreatest(bottom, set j | j in s :: j / g.width)
  }

  /** Twelve pixels, six columns and six rows at least, and neither side more than twenty times the other. */
  ghost predicate IsUseful(g: Grid, s: set<int>)
    requires g.Valid()
  {
    && IsComponentSet(g, s) && |s| >= 12
    && exists left, right, top, bottom ::
         HasBounds(g, s, left, right, top, bottom) && IsUsefulBox(right - left + 1, bottom - top + 1)
  }

  predicate IsUsefulBox(w: int, h: int) {
    w >= 6 && h >= 6 && w <= 20 * h && h <= 20 * w
  }

  ghost function ComponentSets(g: Grid): set<set<int>>
    requires g.Valid()
  {
    set i | 0 <= i < |g.open| && g.Node(i) :: g.Component(i)
  }

  ghost function UsefulSets(g: Grid): set<set<int>>
    requires g.Valid()
  {
    set s | s in ComponentSets(g) && IsUseful(g, s)
  }

  // ---------- The recorded components are the useful sets

  lemma AspectBound(w: int, h: int)
    requires w > 0 && h > 0
    ensures MaxReal(w as real / h as real, h as real / w as real) <= 20.0 <==> w <= 20 * h && h <= 20 * w
  {
    QuotientBound(w, h);
    QuotientBound(h, w);
  }

  lemma QuotientBound(a: int, b: int)
    requires a > 0 && b > 0
    ensures a as real / b as real <= 20.0 <==> a <= 20 * b
  {
    QuotientOrder(a as real, b as real, 20.0);
  }

  lemma KeptMeans(g: Grid, c: Component, root: int, id: int)
    requires g.Valid() && g.Node(root) && Describes(c, g, root, id)
    ensures c.Kept() <==> IsUseful(g, g.Component(root))
    ensures HasBounds(g, g.Component(root), c.minX, c.maxX, c.minY, c.maxY)
  {
    var s := g.Component(root);
    BoundsAre(g, c, root, id);
    if c.Width() > 0 && c.Height() > 0 { AspectBound(c.Width(), c.Height()); }
    if IsUseful(g, s) {
      var left, right, top, bottom :|
        HasBounds(g, s, left, right, top, bottom) && IsUsefulBox(right - left + 1, bottom - top + 1);
      SameBounds(g, s, left, right, top, bottom, c.minX, c.maxX, c.minY, c.maxY);
    }
    if c.Kept() { assert IsUsefulBox(c.maxX - c.minX + 1, c.maxY - c.minY + 1); }
  }

  lemma BoundsAre(g: Grid, c: Component, root: int, id: int)
    requires g.Valid() && Describes(c, g, root, id)
    ensures HasBounds(g, g.Component(root), c.minX, c.maxX, c.minY, c.maxY)
  {
    var s := g.Component(root);
    assert Columns(s, g.width) == set j | j in s :: j % g.width;
    assert Rows(s, g.width) == set j | j in s :: j / g.width;
  }

  lemma SameBounds(g: Grid, s: set<int>, l: int, r: int, t: int, b: int, l': int, r': int, t': int, b': int)
    requires g.Valid() && HasBounds(g, s, l, r, t, b) && HasBounds(g, s, l', r', t', b')
    ensures l == l' && r == r' && t == t' && b == b'
  {
  }

  /** The components of the scan, in order. */
  ghost function RootSets(g: Grid): (sets: seq<set<int>>)
    requires g.Valid()
    ensures |sets| == |Roots(g, |g.open|)|
    ensures forall k :: 0 <= k < |sets| ==> sets[k] == g.Component(Roots(g, |g.open|)[k])
  {
    var roots := Roots(g, |g.open|);
    seq(|roots|, k requires 0 <= k < |roots| => g.Component(roots[k]))
  }

  lemma RootSetsAre(g: Grid)
    requires g.Valid()
    ensures forall a, b :: 0 <= a < b < |RootSets(g)| ==> RootSets(g)[a] != RootSets(g)[b]
    ensures forall s :: s in RootSets(g) <==> s in ComponentSets(g)
    ensures |RootSets(g)| == |ComponentSets(g)|
  {
    var roots, sets := Roots(g, |g.open|), RootSets(g);
    forall k | 0 <= k < |roots| ensures IsRoot(g, roots[k]) && roots[k] in sets[k] && 0 <= roots[k] < |g.open| {
      assert roots[k] in roots;
      g.Reflexive(roots[k]);
    }
    forall a, b | 0 <= a < b < |sets| ensures sets[a] != sets[b] {
      assert roots[a] < roots[b] && IsRoot(g, roots[b]);
      assert roots[a] in sets[a] && roots[a] !in sets[b];
    }
    forall i | g.Node(i) ensures g.Component(i) in sets { RootSetOf(g, i); }
    DistinctCount(sets, ComponentSets(g));
  }

  lemma RootSetOf(g: Grid, i: int)
    requires g.Valid() && g.Node(i)
    ensures g.Component(i) in RootSets(g)
  {
    var root := RootOf(g, i);
    var roots := Roots(g, |g.open|);
    assert root in roots;
    var k :| 0 <= k < |roots| && roots[k] == root;
    forall j ensures g.Connected(root, j) <==> g.Connected(i, j) {
      g.Symmetric(root, i);
      if g.Connected(root, j) { g.Transitive(i, root, j); }
      if g.Connected(i, j) { g.Transitive(root, i, j); }
    }
    assert RootSets(g)[k] == g.Component(i);
  }

  /** Filtering keeps the numbering ascending. */
  lemma {:induction false} KeptAscend(all: seq<Component>)
    requires forall k :: 0 <= k < |all| ==> all[k].id == k + 1
    ensures forall a, b :: 0 <= a < b < |KeptOf(all)| ==> KeptOf(all)[a].id < KeptOf(all)[b].id
  {
    if all != [] {
      var init := all[..|all| - 1];
      KeptAscend(init);
      var kept := KeptOf(init);
      forall a | 0 <= a < |kept| ensures kept[a].id < |all| {
        assert kept[a] in kept && kept[a] in init;
        var k :| 0 <= k < |init| && init[k] == kept[a];
      }
    }
  }

  lemma KeptAllListed(g: Grid)
    requires g.Valid()
    ensures var kept := KeptOf(Survey(g, |g.open|));
      forall k :: 0 <= k < |kept| ==> Listed(g, kept[k]) && kept[k].id - 1 < |RootSets(g)|
  {
    hide Listed, Component.Kept, KeptOf, Survey;
    var kept := KeptOf(Survey(g, |g.open|));
    forall k | 0 <= k < |kept| ensures Listed(g, kept[k]) { KeptMember(g, k); }
    ListedNumber(g);
  }

  lemma ListedNumber(g: Grid)
    requires g.Valid()
    ensures forall c: Component :: Listed(g, c) ==> 1 <= c.id <= |RootSets(g)|
  {
  }

  /** The set of pixels of the k-th useful component of the scan. */
  ghost function KeptSets(g: Grid): (sets: seq<set<int>>)
    requires g.Valid()
    ensures var kept := KeptOf(Survey(g, |g.open|));
      && |sets| == |kept|
      && forall k :: 0 <= k < |sets| ==> Listed(g, kept[k]) && sets[k] == RootSets(g)[kept[k].id - 1]
  {
    var kept := KeptOf(Survey(g, |g.open|));
    KeptAllListed(g);
    seq(|kept|, k requires 0 <= k < |kept| => RootSets(g)[kept[k].id - 1])
  }

  lemma KeptSetsAre(g: Grid)
    requires g.Valid()
    ensures forall a, b :: 0 <= a < b < |KeptSets(g)| ==> KeptSets(g)[a] != KeptSets(g)[b]
    ensures forall s :: s in KeptSets(g) <==> s in UsefulSets(g)
    ensures |KeptSets(g)| == |UsefulSets(g)|
  {
    hide IsUseful, ComponentSets, Roots, Component.Kept;
    var all := Survey(g, |g.open|);
    var kept, sets := KeptOf(all), KeptSets(g);
    RootSetsAre(g);
    KeptAscend(all);
    forall s | s in sets ensures s in UsefulSets(g) { KeptIsUseful(g, s); }
    forall s | s in UsefulSets(g) ensures s in sets { UsefulIsKept(g, s); }
    DistinctCount(sets, UsefulSets(g));
  }

  lemma RootIsNode(g: Grid, k: nat)
    requires g.Valid() && k < |Roots(g, |g.open|)|
    ensures g.Node(Roots(g, |g.open|)[k])
  {
    assert Roots(g, |g.open|)[k] in Roots(g, |g.open|);
  }

  lemma KeptIsUseful(g: Grid, s: set<int>)
    requires g.Valid() && s in KeptSets(g)
    ensures s in UsefulSets(g)
  {
    hide IsUseful, ComponentSets, Component.Kept, Survey, KeptOf, Roots, Describes;
    RootSetsAre(g);
    var kept := KeptOf(Survey(g, |g.open|));
    var k :| 0 <= k < |kept| && KeptSets(g)[k] == s;
    KeptMember(g, k);
    ListedMeans(g, kept[k]);
    assert s in RootSets(g);
  }

  lemma KeptMember(g: Grid, k: nat)
    requires g.Valid() && k < |KeptOf(Survey(g, |g.open|))|
    ensures var c := KeptOf(Survey(g, |g.open|))[k]; Listed(g, c) && c.Kept()
  {
    hide Listed, Component.Kept, KeptOf, Survey;
    KeptAreListed(g);
    assert KeptOf(Survey(g, |g.open|))[k] in KeptOf(Survey(g, |g.open|));
  }

  lemma ListedMeans(g: Grid, c: Component)
    requires g.Valid() && Listed(g, c)
    ensures c.Kept() <==> IsUseful(g, RootSets(g)[c.id - 1])
    ensures HasBounds(g, RootSets(g)[c.id - 1], c.minX, c.maxX, c.minY, c.maxY)
  {
    hide IsUseful, Component.Kept, Describes;
    RootIsNode(g, c.id - 1);
    KeptMeans(g, c, Roots(g, |g.open|)[c.id - 1], c.id);
  }

  lemma UsefulIsKept(g: Grid, s: set<int>)
    requires g.Valid() && s in UsefulSets(g)
    ensures s in KeptSets(g)
  {
    hide IsUseful, ComponentSets, Component.Kept, Roots, Describes;
    RootSetsAre(g);
    var k :| 0 <= k < |RootSets(g)| && RootSets(g)[k] == s;
    var c := SurveyedIsKept(g, k);
    var i :| 0 <= i < |KeptOf(Survey(g, |g.open|))| && KeptOf(Survey(g, |g.open|))[i] == c;
    assert KeptSets(g)[i] == s;
  }

  lemma SurveyedIsKept(g: Grid, k: nat) returns (c: Component)
    requires g.Valid() && k < |RootSets(g)| && IsUseful(g, RootSets(g)[k])
    ensures c in KeptOf(Survey(g, |g.open|)) && c.id == k + 1
  {
    hide IsUseful, Component.Kept;
    var all := Survey(g, |g.open|);
    c := all[k];
    RootIsNode(g, k);
    assert Describes(c, g, Roots(g, |g.open|)[k], k + 1);
    KeptMeans(g, c, Roots(g, |g.open|)[k], k + 1);
  }

  // ---------- The candidates

  /** Its number, its box to the pixel, and the shape that its enclosed cells ask for. */
  ghost predicate IsCandidateOf(g: Grid, s: set<int>, position: nat, d: ShapeCandidate)
    requires g.Valid()
  {
    && d.id == "detected-" + Decimal.ToString(position + 1)
    && exists left, right, top, bottom ::
         HasBounds(g, s, left, right, top, bottom) && FitsBox(g, s, left, right, top, bottom, d)
  }

  ghost predicate FitsBox(g: Grid, s: set<int>, left: int, right: int, top: int, bottom: int, d: ShapeCandidate)
    requires g.Valid()
  {
    && left <= right && top <= bottom
    && d.x - d.width / 2.0 == left as real && d.x + d.width / 2.0 == (right + 1) as real
    && d.y - d.height / 2.0 == top as real && d.y + d.height / 2.0 == (bottom + 1) as real
    && var cells := EnclosedCells(s, Component(0, left, top, right, bottom, 0), g.width);
       cells != {} && Recognized(Fit(d.shape, d.quality), cells, right - left + 1, bottom - top + 1)
  }

  lemma EnclosedAre(g: Grid, s: set<int>, c: Component)
    requires c.Width() > 0 && c.Height() > 0
    ensures EnclosedCells(s, c, g.width) == EnclosedCells(s, Component(0, c.minX, c.minY, c.maxX, c.maxY, 0), g.width)
  {
    var plain := Component(0, c.minX, c.minY, c.maxX, c.maxY, 0);
    hide EnclosedCells, Silhouette;
    FilledAreEnclosed(s, c, g.width);
    FilledAreEnclosed(s, plain, g.width);
    SameSilhouette(g, s, c, plain);
  }

  lemma SameSilhouette(g: Grid, s: set<int>, c: Component, plain: Component)
    requires c.Width() > 0 && c.Height() > 0
    requires plain == Component(0, c.minX, c.minY, c.maxX, c.maxY, 0)
    ensures Silhouette(s, c, g.width) == Silhouette(s, plain, g.width)
  {
    assert Margin(s, c, g.width) == Margin(s, plain, g.width) by {
      assert forall p :: 0 <= p < (c.Width() + 2) * (c.Height() + 2) ==>
        (HasInk(s, c, g.width, p) <==> HasInk(s, plain, g.width, p));
    }
  }

  lemma EnclosesSomething(g: Grid, c: Component, root: int)
    requires g.Valid() && Describes(c, g, root, c.id) && c.Width() > 0 && c.Height() > 0 && c.size > 0
    ensures EnclosedCells(g.Component(root), c, g.width) != {}
  {
    var ink := g.Component(root);
    var filled := Silhouette(ink, c, g.width);
    AreaIsSizePlusHoles(g, c, root);
    AreaCounts(filled, c.Width(), |filled|);
    FilledAreEnclosed(ink, c, g.width);
  }

  lemma CandidateIs(g: Grid, c: Component, position: nat)
    requires g.Valid() && Listed(g, c) && c.size > 0
    ensures IsCandidateOf(g, RootSets(g)[c.id - 1], position, CandidateOf(g, c, position))
  {
    hide FitOf, Silhouette, EnclosedCells, Recognized, Describes, Roots;
    var root := Roots(g, |g.open|)[c.id - 1];
    var s := g.Component(root);
    BoundsAre(g, c, root, c.id);
    EnclosedAre(g, s, c);
    EnclosesSomething(g, c, root);
    FitIsRecognized(s, c, g.width);
    assert FitsBox(g, s, c.minX, c.maxX, c.minY, c.maxY, CandidateOf(g, c, position));
  }

  // ---------- The outcome

  /** Cells of the padded boxes around the components, up to the n-th. */
  ghost function PaddedCells(g: Grid, sets: seq<set<int>>): int
    requires g.Valid()
  {
    if sets == [] then 0
    else PaddedCells(g, sets[..|sets| - 1]) + PaddedBox(g, sets[|sets| - 1])
  }

  /** The cells of the box with one more on every side. */
  ghost function PaddedBox(g: Grid, s: set<int>): int
    requires g.Valid()
  {
    if left, right, top, bottom :| HasBounds(g, s, left, right, top, bottom)
    then (right - left + 3) * (bottom - top + 3) else 0
  }

  /** One list of candidates: one for each useful component, in the order of their first pixels. */
  ghost predicate ListsUseful(g: Grid, sets: seq<set<int>>)
    requires g.Valid()
  {
    && (forall a, b :: 0 <= a < b < |sets| ==> sets[a] != sets[b])
    && (forall s :: s in sets <==> s in UsefulSets(g))
    && forall a, b, i, j :: 0 <= a < b < |sets| && IsLeast(i, sets[a]) && IsLeast(j, sets[b]) ==> i < j
  }

  ghost predicate Extracts(g: Grid, r: Result<seq<ShapeCandidate>, ErrorCode>)
    requires g.Valid()
  {
    var dark := set i | 0 <= i < |g.open| && g.open[i];
    if |ComponentSets(g)| > 20000 || |UsefulSets(g)| > 10000 then r == Err(SourceTooComplex)
    else if 10 * |dark| > 6 * |g.open| then r == Err(UnsupportedContrast)
    else exists sets :: ListsUseful(g, sets) && Returns(g, sets, r)
  }

  ghost predicate Returns(g: Grid, sets: seq<set<int>>, r: Result<seq<ShapeCandidate>, ErrorCode>)
    requires g.Valid()
  {
    if PaddedCells(g, sets) > 10000000 then r == Err(SourceTooComplex)
    else r.Ok? && |r.value| == |sets| && forall k :: 0 <= k < |sets| ==> IsCandidateOf(g, sets[k], k, r.value[k])
  }

  lemma KeptSetsList(g: Grid)
    requires g.Valid()
    ensures ListsUseful(g, KeptSets(g))
  {
    hide UsefulSets, IsLeast, KeptSets;
    KeptSetsAre(g);
    var sets := KeptSets(g);
    forall a, b, i, j | 0 <= a < b < |sets| && IsLeast(i, sets[a]) && IsLeast(j, sets[b]) ensures i < j {
      KeptByFirst(g, a, b, i, j);
    }
  }

  lemma KeptByFirst(g: Grid, a: nat, b: nat, i: int, j: int)
    requires g.Valid() && a < b < |KeptSets(g)| && IsLeast(i, KeptSets(g)[a]) && IsLeast(j, KeptSets(g)[b])
    ensures i < j
  {
    hide Survey, KeptOf, Roots, Describes, Component.Kept, IsLeast;
    var kept := KeptOf(Survey(g, |g.open|));
    KeptInOrder(g);
    FirstIsRoot(g, kept[a].id - 1, i);
    FirstIsRoot(g, kept[b].id - 1, j);
    assert kept[a].id < kept[b].id;
  }

  lemma KeptInOrder(g: Grid)
    requires g.Valid()
    ensures var kept := KeptOf(Survey(g, |g.open|)); forall a, b :: 0 <= a < b < |kept| ==> kept[a].id < kept[b].id
  {
    KeptAscend(Survey(g, |g.open|));
  }

  lemma FirstIsRoot(g: Grid, k: nat, i: int)
    requires g.Valid() && k < |RootSets(g)| && IsLeast(i, RootSets(g)[k])
    ensures i == Roots(g, |g.open|)[k]
  {
    var root := Roots(g, |g.open|)[k];
    assert root in Roots(g, |g.open|);
    g.Reflexive(root);
  }

  lemma {:induction false} PaddedCellsAre(g: Grid, kept: seq<Component>, sets: seq<set<int>>)
    requires g.Valid() && |kept| == |sets|
    requires forall k :: 0 <= k < |kept| ==>
      HasBounds(g, sets[k], kept[k].minX, kept[k].maxX, kept[k].minY, kept[k].maxY)
    ensures PaddedCells(g, sets) == FitPixels(kept)
  {
    hide HasBounds;
    if kept != [] {
      var n := |kept| - 1;
      PaddedCellsAre(g, kept[..n], sets[..n]);
      PaddedBoxIs(g, kept[n], sets[n]);
    }
  }

  lemma PaddedBoxIs(g: Grid, c: Component, s: set<int>)
    requires g.Valid() && HasBounds(g, s, c.minX, c.maxX, c.minY, c.maxY)
    ensures PaddedBox(g, s) == PaddedPixels(c)
  {
    var left, right, top, bottom :| HasBounds(g, s, left, right, top, bottom)
      && PaddedBox(g, s) == (right - left + 3) * (bottom - top + 3);
    SameBounds(g, s, left, right, top, bottom, c.minX, c.maxX, c.minY, c.maxY);
  }

  /** What the scan counts is what there is. */
  lemma RefusalMeans(g: Grid)
    requires g.Valid() && |g.open| > 0
    ensures TooComplex(g) <==> |ComponentSets(g)| > 20000 || |UsefulSets(g)| > 10000
    ensures TooDark(g) <==> 10 * |set i | 0 <= i < |g.open| && g.open[i]| > 6 * |g.open|
    ensures FitPixels(KeptOf(Survey(g, |g.open|))) == PaddedCells(g, KeptSets(g))
  {
    hide Survey, KeptOf, UsefulSets, ComponentSets, Roots, Describes, Component.Kept, FitPixels;
    RootSetsAre(g);
    KeptSetsAre(g);
    DarkShare(DarkCount(g), |g.open|);
    var kept, sets := KeptOf(Survey(g, |g.open|)), KeptSets(g);
    forall k | 0 <= k < |kept| ensures HasBounds(g, sets[k], kept[k].minX, kept[k].maxX, kept[k].minY, kept[k].maxY) {
      ListedMeans(g, kept[k]);
    }
    PaddedCellsAre(g, kept, sets);
  }

  lemma DarkShare(dark: int, n: int)
    requires n > 0
    ensures dark as real / n as real > 0.6 <==> 10 * dark > 6 * n
  {
    QuotientOrder(dark as real, n as real, 0.6);
  }

  /** Every extraction does what it must. */
  lemma ExtractionDoes(g: Grid, r: Result<seq<ShapeCandidate>, ErrorCode>)
    requires g.Valid() && |g.open| > 0
    requires
      if TooComplex(g) then r == Err(SourceTooComplex)
      else if TooDark(g) then r == Err(UnsupportedContrast)
      else if FitPixels(KeptOf(Survey(g, |g.open|))) > MAX_FIT_PIXELS then r == Err(SourceTooComplex)
      else r.Ok? && Extracted(g, r.value)
    ensures Extracts(g, r)
  {
    hide Survey, KeptOf, UsefulSets, ComponentSets, Roots, Describes, Component.Kept, FitPixels, TooComplex, TooDark,
      IsCandidateOf, PaddedCells, CandidateOf, Extracted;
    RefusalMeans(g);
    KeptSetsList(g);
    if !TooComplex(g) && !TooDark(g) && r.Ok? {
      ExtractedMeans(g, r.value);
      assert Returns(g, KeptSets(g), r);
    }
  }

  lemma ExtractedMeans(g: Grid, candidates: seq<ShapeCandidate>)
    requires g.Valid() && Extracted(g, candidates)
    ensures |candidates| == |KeptSets(g)|
    ensures forall k :: 0 <= k < |candidates| ==> IsCandidateOf(g, KeptSets(g)[k], k, candidates[k])
  {
    hide Survey, KeptOf, Roots, Describes, CandidateOf, IsCandidateOf, RootSets;
    var kept := KeptOf(Survey(g, |g.open|));
    forall k | 0 <= k < |candidates| ensures IsCandidateOf(g, KeptSets(g)[k], k, candidates[k]) {
      KeptMember(g, k);
      CandidateIs(g, kept[k], k);
    }
  }

  lemma CompleteLists(g: Grid, l: Labelling)
    requires g.Valid() && Complete(g, l)
    ensures l.components == KeptOf(Survey(g, |g.open|))
  {
  }

  method ExtractShapes(source: Source, threshold: int) returns (r: Result<seq<ShapeCandidate>, ErrorCode>)
    requires source.Valid()
    ensures var g := DarkGrid(source, threshold);
      if TooComplex(g) then r == Err(SourceTooComplex)
      else if TooDark(g) then r == Err(UnsupportedContrast)
      else if FitPixels(KeptOf(Survey(g, |g.open|))) > MAX_FIT_PIXELS then r == Err(SourceTooComplex)
      else r.Ok? && Extracted(g, r.value)
    ensures Extracts(DarkGrid(source, threshold), r)
  {
    hide TooComplex, TooDark, FitPixels, KeptOf, Survey, Extracted, Extracts, Complete;
    CellAt(0, 0, source.width, source.height);
    var labelled := LabelComponents(source, threshold);
    if labelled.Err? {
      r := Err(labelled.error);
    } else {
      CompleteLists(DarkGrid(source, threshold), labelled.value);
      r := FitComponents(source, threshold, labelled.value);
    }
    ExtractionDoes(DarkGrid(source, threshold), r);
  }
}
