/** Shape extraction (raster-components.ts, extractShapes): one candidate for each useful component, in scan order. */
module Candidates {
  import opened Outcomes
  import opened Raster
  import opened Grids
  import opened Components
  import opened Contour
  import opened ContourFits
  import ContourProperties
  import Decimal

  /** A component of the finished scan, with a usable bounding box. */
  ghost predicate Listed(g: Grid, c: Component)
    requires g.Valid()
  {
    var roots := Roots(g, |g.open|);
    1 <= c.id <= |roots| && Describes(c, g, roots[c.id - 1], c.id) && c.Width() > 0 && c.Height() > 0
  }

  /** The candidate made of a component: its place, its box, and the fit of its filled silhouette. */
  ghost function CandidateOf(g: Grid, c: Component, position: nat): ShapeCandidate
    requires g.Valid() && Listed(g, c)
  {
    var ink := g.Component(Roots(g, |g.open|)[c.id - 1]);
    var fit := FitOf(Silhouette(ink, c, g.width), c.Width(), c.Height());
    Candidate(c, position, fit)
  }

  function Candidate(c: Component, position: nat, fit: Fit): ShapeCandidate {
    ShapeCandidate("detected-" + Decimal.ToString(position + 1),
                   c.minX as real + c.Width() as real / 2.0, c.minY as real + c.Height() as real / 2.0,
                   c.Width() as real, c.Height() as real, fit.shape, fit.quality)
  }

  function PaddedPixels(c: Component): int {
    (c.Width() + 2) * (c.Height() + 2)
  }

  function FitPixels(cs: seq<Component>): int {
    if cs == [] then 0 else FitPixels(cs[..|cs| - 1]) + PaddedPixels(cs[|cs| - 1])
  }

  lemma {:induction false} FitPixelsGrow(cs: seq<Component>, n: nat)
    requires n <= |cs| && forall c :: c in cs ==> c.Width() > 0 && c.Height() > 0
    ensures FitPixels(cs[..n]) <= FitPixels(cs)
  {
    if n == |cs| {
      assert cs[..n] == cs;
    } else {
      var rest, last := cs[..|cs| - 1], cs[|cs| - 1];
      FitPixelsGrow(rest, n);
      assert rest[..n] == cs[..n];
      assert (last.Width() + 2) * (last.Height() + 2) >= 0;
    }
  }

  /** What a successful extraction returns. */
  ghost predicate Extracted(g: Grid, candidates: seq<ShapeCandidate>)
    requires g.Valid()
  {
    var kept := KeptOf(Survey(g, |g.open|));
    && |candidates| == |kept|
    && forall k :: 0 <= k < |kept| ==>
        Listed(g, kept[k]) && kept[k].Kept() && candidates[k] == CandidateOf(g, kept[k], k)
  }

  lemma KeptAreListed(g: Grid)
    requires g.Valid()
    ensures forall c :: c in KeptOf(Survey(g, |g.open|)) ==> Listed(g, c) && c.Kept() && c.Width() > 0 && c.Height() > 0
  {
    var all := Survey(g, |g.open|);
    forall c | c in KeptOf(all) ensures Listed(g, c) && c.Kept() && c.Width() > 0 && c.Height() > 0 {
      var k :| 0 <= k < |all| && all[k] == c;
      assert Describes(all[k], g, Roots(g, |g.open|)[k], k + 1);
    }
  }

  lemma InkIsComponent(g: Grid, l: Labelling, c: Component)
    requires g.Valid() && Complete(g, l) && Listed(g, c)
    ensures InkOf(l.labels, c.id) == g.Component(Roots(g, |g.open|)[c.id - 1])
    ensures InImage(c, g.width, |l.labels|)
  {
    var root := Roots(g, |g.open|)[c.id - 1];
    ContourProperties.DescribedInImage(g, c, root);
    forall j | 0 <= j < |l.labels| ensures l.labels[j] == c.id <==> g.Connected(root, j) {
      assert l.labels[j] == (c.id - 1) + 1 <==> g.Connected(root, j);
    }
    forall j | g.Connected(root, j) ensures 0 <= j < |g.open| { g.ConnectedNodes(root, j); }
  }

  method FitComponent(c: Component, position: nat, l: Labelling, width: nat, ghost g: Grid)
    returns (candidate: ShapeCandidate)
    requires g.Valid() && Complete(g, l) && Listed(g, c) && width == g.width
    ensures candidate == CandidateOf(g, c, position)
  {
    hide Survey, KeptOf, FitOf, Silhouette, Candidate, Component.Kept, Describes, InkOf, Complete, Roots;
    InkIsComponent(g, l, c);
    var fit := FitContour(c, l.labels, width);
    candidate := Candidate(c, position, fit);
  }

  method FitComponents(source: Source, threshold: int, l: Labelling) returns (r: Result<seq<ShapeCandidate>, ErrorCode>)
    requires source.Valid() && Complete(DarkGrid(source, threshold), l)
    ensures if FitPixels(l.components) > MAX_FIT_PIXELS then r == Err(SourceTooComplex)
            else r.Ok? && Extracted(DarkGrid(source, threshold), r.value)
  {
    hide Survey, KeptOf, Component.Kept, Labels, Listed, CandidateOf, PaddedPixels;
    ghost var g := DarkGrid(source, threshold);
    KeptAreListed(g);
    assert l.components == KeptOf(Survey(g, |g.open|));
    var candidates: seq<ShapeCandidate> := [];
    var fitPixels := 0;
    for index := 0 to |l.components|
      invariant fitPixels == FitPixels(l.components[..index]) && fitPixels <= MAX_FIT_PIXELS
      invariant |candidates| == index
      invariant forall k :: 0 <= k < index ==>
        Listed(g, l.components[k]) && candidates[k] == CandidateOf(g, l.components[k], k)
    {
      var c := l.components[index];
      assert l.components[..index + 1][..index] == l.components[..index];
      fitPixels := fitPixels + PaddedPixels(c);
      if fitPixels > MAX_FIT_PIXELS {
        FitPixelsGrow(l.components, index + 1);
        return Err(SourceTooComplex);
      }
      var candidate := FitComponent(c, index, l, source.width, g);
      candidates := candidates + [candidate];
    }
    assert l.components[..|l.components|] == l.components;
    return Ok(candidates);
  }

  /** Candidates have distinct ids, boxes of at least 6 by 6, and a quality between 0 and 1. */
  lemma CandidatesWellFormed(g: Grid, candidates: seq<ShapeCandidate>)
    requires g.Valid() && Extracted(g, candidates)
    ensures forall a, b :: 0 <= a < b < |candidates| ==> candidates[a].id != candidates[b].id
    ensures forall k :: 0 <= k < |candidates| ==>
      candidates[k].width >= 6.0 && candidates[k].height >= 6.0 && 0.0 <= candidates[k].quality <= 1.0
  {
    hide FitOf, Silhouette, Describes, Roots, KeptOf, Survey;
    var kept := KeptOf(Survey(g, |g.open|));
    forall a, b | 0 <= a < b < |candidates| ensures candidates[a].id != candidates[b].id {
      assert candidates[a] == CandidateOf(g, kept[a], a) && candidates[b] == CandidateOf(g, kept[b], b);
      if candidates[a].id == candidates[b].id { Decimal.Injective("detected-", a + 1, b + 1); }
    }
    forall k | 0 <= k < |candidates|
      ensures candidates[k].width >= 6.0 && candidates[k].height >= 6.0 && 0.0 <= candidates[k].quality <= 1.0
    {
      var c := kept[k];
      var ink := g.Component(Roots(g, |g.open|)[c.id - 1]);
      ContourProperties.FitsWithinUnit(Silhouette(ink, c, g.width), c.Width(), c.Height());
    }
  }
}
