/** The whole recogniser (geometry-layout.recognizer.ts): threshold, extract, interpret; what holds of every result. */
module Recognizer {
  import opened Outcomes
  import opened Raster
  import opened Grids
  import opened Components
  import opened Containment
  import opened Interpreter
  import opened InterpreterProperties
  import opened Candidates
  import opened ExtractionOutcomes
  import opened InterpreterOutcomes
  import Threshold
  import Contour
  import ContourProperties

  datatype Recognition = Recognition(elements: seq<Element>, warnings: seq<Warning>, threshold: Option<int>)

  /** Why the image at threshold t is refused, the first reason that applies. */
  ghost function Refusal(source: Source, t: int): Option<ErrorCode>
    requires source.Valid() && source.data != []
  {
    var g := DarkGrid(source, t);
    var kept := KeptOf(Survey(g, |g.open|));
    if TooComplex(g) then Some(SourceTooComplex)
    else if TooDark(g) then Some(UnsupportedContrast)
    else if FitPixels(kept) > MAX_FIT_PIXELS || |kept| * |kept| > MAX_COMPARISONS then Some(SourceTooComplex)
    else None
  }

  ghost predicate Interpreted(scene: Scene, t: int, r: Recognition)
    requires scene.imageWidth > 0 && scene.imageHeight > 0
  {
    r.threshold == Some(t) && Delivered(scene, Interpretation(r.elements, r.warnings))
  }

  /** The result follows from an Otsu threshold, the candidates extracted at it, and their interpretation. */
  ghost predicate Derived(source: Source, scene: Scene, t: int, r: Recognition)
    requires source.Valid()
  {
    && Threshold.IsOtsu(source.data, t)
    && Extracted(DarkGrid(source, t), scene.candidates)
    && scene.imageWidth == source.width && scene.imageHeight == source.height
    && Interpreted(scene, t, r)
  }

  ghost predicate LowContrast(source: Source)
    requires source.Valid() && source.data != []
  {
    Threshold.Lightest(source.data) - Threshold.Darkest(source.data) < 24
  }

  /** The outcome at threshold t: an error exactly when there is a reason to refuse, a derived result otherwise. */
  ghost predicate Judged(source: Source, scene: Scene, t: int, r: Result<Recognition, ErrorCode>)
    requires source.Valid() && source.data != []
  {
    match Refusal(source, t)
    case Some(error) => r == Err(error)
    case None => r.Ok? && Derived(source, scene, t, r.value)
  }

  /** The outcome, from the sets of dark pixels, the shapes they make, and the distances between these. */
  ghost predicate Analyzed(source: Source, scene: Scene, t: int, r: Result<Recognition, ErrorCode>)
    requires source.Valid() && source.data != []
  {
    exists extracted :: Extracts(DarkGrid(source, t), extracted) && Concluded(source, scene, t, extracted, r)
  }

  ghost predicate Concluded(source: Source, scene: Scene, t: int, extracted: Result<seq<ShapeCandidate>, ErrorCode>,
                            r: Result<Recognition, ErrorCode>)
    requires source.Valid()
  {
    if extracted.Err? then r == Err(extracted.error)
    else if |extracted.value| * |extracted.value| > 2000000 then r == Err(SourceTooComplex)
    else
      && r.Ok? && r.value.threshold == Some(t)
      && scene.candidates == extracted.value && scene.imageWidth == source.width && scene.imageHeight == source.height
      && IsInterpretation(scene, Interpretation(r.value.elements, r.value.warnings))
  }

  lemma Sizeable(g: Grid, candidates: seq<ShapeCandidate>)
    requires g.Valid() && Extracted(g, candidates)
    ensures forall k :: 0 <= k < |candidates| ==> Sized(candidates[k])
  {
    CandidatesWellFormed(g, candidates);
  }

  method Analyze(source: Source, hypot: (real, real) -> real)
    returns (r: Result<Recognition, ErrorCode>, ghost scene: Scene)
    ensures scene.hypot == hypot
    ensures source.Valid() <==> 1 <= source.width <= 1600 && 1 <= source.height <= 1600 && source.channels == 1
                                && |source.data| == source.width * source.height
    ensures !source.Valid() ==> r == Err(InvalidRaster)
    ensures source.Valid() ==> source.data != []
    ensures source.Valid() && LowContrast(source) ==>
      r == if Threshold.Darkest(source.data) >= 224 then Ok(Recognition([], [GeometryOnly, NoObjects], None))
           else Err(UnsupportedContrast)
    ensures source.Valid() && !LowContrast(source) ==>
      exists t :: Threshold.IsOtsu(source.data, t) && Judged(source, scene, t, r) && Analyzed(source, scene, t, r)
  {
    ValidMeans(source);
    hide LowContrast, Judged, Analyzed, Scene.FinalElement, Scene.WarningsBefore, Threshold.IsOtsu;
    scene := Scene([], 1, 1, hypot);
    if source.Valid() {
      ContrastMeans(source);
    }
    var threshold :- Threshold.BinaryThreshold(source);
    if threshold.None? {
      var view := Scene([], source.width, source.height, hypot);
      var interpreted := Interpreter.Interpret(view);
      var interpretation := interpreted.value;
      NoWarningsYet(view);
      assert interpretation.elements == [];
      assert interpretation.warnings == [GeometryOnly, NoObjects];
      return Ok(Recognition(interpretation.elements, interpretation.warnings, None)), view;
    }
    r, scene := AnalyzeAt(source, threshold.value, hypot);
  }

  lemma ContrastMeans(source: Source)
    requires source.Valid() && source.data != []
    ensures LowContrast(source) <==> Threshold.Lightest(source.data) - Threshold.Darkest(source.data) < 24
  {
  }

  method AnalyzeAt(source: Source, threshold: int, hypot: (real, real) -> real)
    returns (r: Result<Recognition, ErrorCode>, ghost scene: Scene)
    requires source.Valid() && source.data != [] && Threshold.IsOtsu(source.data, threshold)
    ensures scene.hypot == hypot && Judged(source, scene, threshold, r) && Analyzed(source, scene, threshold, r)
  {
    hide Extracts, IsInterpretation, Delivered, Scene.FinalElement, Scene.WarningsBefore, Extracted, DarkGrid,
      TooComplex, TooDark, FitPixels, KeptOf, Survey, Threshold.IsOtsu;
    scene := Scene([], 1, 1, hypot);
    var extracted := ExtractShapes(source, threshold);
    if extracted.Err? {
      r := Err(extracted.error);
      assert Concluded(source, scene, threshold, extracted, r);
      return;
    }
    var candidates := extracted.value;
    Sizeable(DarkGrid(source, threshold), candidates);
    SameNumber(DarkGrid(source, threshold), candidates);
    var bodies: seq<Body> := candidates;
    var view := Scene(bodies, source.width, source.height, hypot);
    scene := view;
    var interpreted := Interpreter.Interpret(view);
    if interpreted.Err? {
      r := Err(interpreted.error);
    } else {
      r := Ok(Recognition(interpreted.value.elements, interpreted.value.warnings, Some(threshold)));
      ViewIsValid(DarkGrid(source, threshold), view);
      ResultIsInterpretation(view, interpreted.value);
    }
    assert Concluded(source, scene, threshold, extracted, r);
  }

  lemma ViewIsValid(g: Grid, scene: Scene)
    requires g.Valid() && Extracted(g, scene.candidates) && scene.imageWidth > 0 && scene.imageHeight > 0
    ensures scene.Valid()
  {
    CandidatesWellFormed(g, scene.candidates);
  }

  lemma SameNumber(g: Grid, candidates: seq<ShapeCandidate>)
    requires g.Valid() && Extracted(g, candidates)
    ensures |candidates| == |KeptOf(Survey(g, |g.open|))|
  {
  }

  /** No image has two outcomes: its Otsu threshold is unique, and with it the refusal or the result. */
  lemma OneOutcome(source: Source, a: Scene, t: int, r: Result<Recognition, ErrorCode>, u: int)
    requires source.Valid() && source.data != []
    requires Threshold.IsOtsu(source.data, t) && Judged(source, a, t, r) && Threshold.IsOtsu(source.data, u)
    ensures r.Err? <==> Refusal(source, u).Some?
    ensures r.Err? ==> Refusal(source, u) == Some(r.error)
    ensures r.Ok? ==> r.value.threshold == Some(u)
  {
    hide Refusal, Extracted, DarkGrid;
    Threshold.OtsuIsUnique(source.data, t, u);
  }

  lemma NoWarningsYet(scene: Scene)
    ensures scene.WarningsBefore(0) == [GeometryOnly]
  {
  }

  // ---------- What holds of every result

  /** The element's box lies inside the image, whose edges are 0 and 1. */
  predicate InUnitSquare(e: Element) {
    var g := e.geometry;
    && 0.0 <= g.x - g.width / 2.0 && g.x + g.width / 2.0 <= 1.0
    && 0.0 <= g.y - g.height / 2.0 && g.y + g.height / 2.0 <= 1.0
  }

  lemma LastRow(c: Component, width: nat, height: nat)
    requires width > 0 && Contour.InImage(c, width, width * height)
    ensures c.maxY < height
  {
  }

  lemma UnitSpan(low: int, high: int, size: int)
    requires 0 <= low <= high <= size && size > 0
    ensures var n := size as real; var extent := (high - low) as real / n;
      var centre := (low as real + (high - low) as real / 2.0) / n;
      0.0 <= centre - extent / 2.0 && centre + extent / 2.0 <= 1.0
  {
    var n := size as real;
    var extent, centre := (high - low) as real / n, (low as real + (high - low) as real / 2.0) / n;
    assert centre - extent / 2.0 == low as real / n;
    assert centre + extent / 2.0 == high as real / n;
  }

  /** The candidate's box is made of whole pixels of the image. */
  lemma CandidateInImage(source: Source, t: int, candidates: seq<ShapeCandidate>, k: nat) returns (c: Component)
    requires source.Valid() && Extracted(DarkGrid(source, t), candidates) && k < |candidates|
    ensures 0 <= c.minX <= c.maxX < source.width && 0 <= c.minY <= c.maxY < source.height
    ensures exists fit :: candidates[k] == Candidate(c, k, fit)
  {
    hide Survey, KeptOf, Components.Describes, Roots, Contour.FitOf, Contour.Silhouette, Component.Kept, Candidate;
    var g := DarkGrid(source, t);
    c := KeptOf(Survey(g, |g.open|))[k];
    ContourProperties.DescribedInImage(g, c, Roots(g, |g.open|)[c.id - 1]);
    LastRow(c, source.width, source.height);
  }

  lemma ElementInImage(source: Source, scene: Scene, t: int, r: Recognition, k: nat)
    requires source.Valid() && Derived(source, scene, t, r) && k < |r.elements|
    ensures InUnitSquare(r.elements[k])
  {
    hide Extracted, Threshold.IsOtsu, Scene.KindOf, Scene.Relating, Scene.EnclosingId, Scene.SeatsAt;
    var c := CandidateInImage(source, t, scene.candidates, k);
    UnitSpan(c.minX, c.maxX + 1, source.width);
    UnitSpan(c.minY, c.maxY + 1, source.height);
  }

  /**
    Read from the result alone: ids are distinct, every box lies in the image, a table's seat count is the number of
    seats that name it, nothing else has a seat count, and every parent is a larger table or section of the result.
   */
  ghost predicate Sound(r: Recognition) {
    && (forall a, b :: 0 <= a < b < |r.elements| ==> r.elements[a].id != r.elements[b].id)
    && (forall k :: 0 <= k < |r.elements| ==> InUnitSquare(r.elements[k]))
    && (forall k :: 0 <= k < |r.elements| ==>
          r.elements[k].seatCount == if r.elements[k].kind == TableKind
            then Some(|SeatsOf(r.elements, r.elements[k].id)|) else None)
    && (forall k :: 0 <= k < |r.elements| && r.elements[k].parent.Some? ==> HasLargerParent(r, k))
  }

  ghost predicate HasLargerParent(r: Recognition, k: nat)
    requires k < |r.elements|
  {
    exists p :: 0 <= p < |r.elements| && IsLargerParent(r.elements[k], r.elements[p])
  }

  predicate IsLargerParent(child: Element, parent: Element) {
    && child.parent == Some(parent.id) && (parent.kind == TableKind || parent.kind == SectionKind)
    && child.geometry.width * child.geometry.height < parent.geometry.width * parent.geometry.height
  }

  lemma DerivedIsValid(source: Source, scene: Scene, t: int, r: Recognition)
    requires source.Valid() && Derived(source, scene, t, r)
    ensures scene.Valid()
  {
    CandidatesWellFormed(DarkGrid(source, t), scene.candidates);
  }

  lemma ScaledAreas(a: Body, b: Body, w: real, h: real)
    requires w > 0.0 && h > 0.0 && Area(a) < Area(b)
    ensures (a.width / w) * (a.height / h) < (b.width / w) * (b.height / h)
  {
    Scaled(a, w, h);
    Scaled(b, w, h);
    assert w * h > 0.0;
  }

  lemma Scaled(a: Body, w: real, h: real)
    requires w > 0.0 && h > 0.0
    ensures w * h > 0.0 && (a.width / w) * (a.height / h) == Area(a) / (w * h)
  {
    var u, v := a.width / w, a.height / h;
    assert a.width == u * w && a.height == v * h;
    assert Area(a) == (u * v) * (w * h);
  }

  lemma ParentIsElsewhere(scene: Scene, child: Body) returns (p: nat)
    requires scene.Valid() && child in scene.candidates && scene.ElementOf(child).parent.Some?
    ensures p < |scene.candidates| && scene.ElementOf(child).parent == Some(scene.candidates[p].id)
    ensures Area(child) < Area(scene.candidates[p])
    ensures scene.KindOf(scene.candidates[p]) == TableKind || scene.KindOf(scene.candidates[p]) == SectionKind
  {
    hide Scene.Tables, Scene.Sections, Scene.ElementOf, Scene.KindOf, Contains, Area;
    ParentExists(scene, child);
    var parent :| Parent(scene, child, parent);
    ParentIsLarger(scene, child, parent);
    ParentMeaning(scene, child, parent);
    KindsPartition(scene, parent);
    p :| 0 <= p < |scene.candidates| && scene.candidates[p] == parent;
  }

  lemma ParentHolds(scene: Scene, t: int, r: Recognition, k: nat)
    requires scene.Valid() && Interpreted(scene, t, r) && k < |r.elements| && r.elements[k].parent.Some?
    ensures HasLargerParent(r, k)
  {
    hide Scene.SeatsAt, Scene.KindOf, Scene.Relating, Scene.EnclosingId, Area;
    var p := ParentIsElsewhere(scene, scene.candidates[k]);
    ScaledAreas(scene.candidates[k], scene.candidates[p], scene.imageWidth as real, scene.imageHeight as real);
    assert IsLargerParent(r.elements[k], r.elements[p]);
  }

  lemma IdIsKept(scene: Scene, c: Body)
    requires scene.imageWidth > 0 && scene.imageHeight > 0
    ensures scene.FinalElement(c).id == c.id
  {
    hide Scene.KindOf, Scene.Relating, Scene.EnclosingId, Scene.SeatsAt;
  }

  /** Every result of the recogniser is sound, whatever the image and whatever hypot returns. */
  lemma ResultIsSound(source: Source, scene: Scene, t: int, r: Recognition)
    requires source.Valid() && Derived(source, scene, t, r)
    ensures Sound(r)
  {
    hide InUnitSquare, HasLargerParent, SeatsOf, Extracted, DarkGrid, Threshold.IsOtsu, Scene.WarningsBefore,
      Scene.FinalElement, Scene.Valid;
    DerivedIsValid(source, scene, t, r);
    forall k | 0 <= k < |r.elements|
      ensures InUnitSquare(r.elements[k])
      ensures r.elements[k].seatCount == if r.elements[k].kind == TableKind
        then Some(|SeatsOf(r.elements, r.elements[k].id)|) else None
      ensures r.elements[k].parent.Some? ==> HasLargerParent(r, k)
      ensures r.elements[k].id == scene.candidates[k].id
    {
      IdIsKept(scene, scene.candidates[k]);
      ElementInImage(source, scene, t, r, k);
      SeatCountHolds(scene, Interpretation(r.elements, r.warnings), k);
      if r.elements[k].parent.Some? { ParentHolds(scene, t, r, k); }
    }
  }
}
