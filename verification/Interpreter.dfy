/**
  Interpretation of shapes (layout-interpreter.ts, interpretShapes): geometry decides which shapes are
  sections, seats and tables, which section or table each belongs to, and how many seats each table has.
  Math.hypot is a parameter; nothing below depends on what it returns.
 */
module Interpreter {
  import opened Outcomes
  import opened Raster
  import opened Containment
  import opened StableSort

  const MAX_COMPARISONS := 2000000

  datatype Kind = SectionKind | TableKind | SeatKind | UnknownKind

  datatype Geometry = Geometry(x: real, y: real, width: real, height: real, rotation: real)

  datatype Element = Element(
    id: string, kind: Kind, geometry: Geometry, sourceBounds: Geometry, shape: Option<Shape>,
    parent: Option<string>, seatCount: Option<nat>, needsReview: bool,
    quality: real, classification: real, relationship: Option<real>)

  datatype Warning =
    | GeometryOnly
    | AmbiguousParent(seat: string, closest: string, second: string)
    | UnknownObject(id: string)
    | NoObjects

  datatype Interpretation = Interpretation(elements: seq<Element>, warnings: seq<Warning>)

  /** What a seat's surroundings say about its table. */
  datatype Relation = Definite(table: Body) | Ambiguous(closest: Body, second: Body) | Loose

  type Bodies = seq<Body>

  predicate HasId(s: Bodies, id: string) {
    exists k :: 0 <= k < |s| && s[k].id == id
  }

  function Diameter(s: Body): real {
    MaxReal(s.width, s.height)
  }

  predicate SimilarSize(a: Body, b: Body) {
    && MaxReal(a.width / b.width, b.width / a.width) <= 1.35
    && MaxReal(a.height / b.height, b.height / a.height) <= 1.35
  }

  predicate FourTimes(large: Body, small: Body) {
    Area(large) >= Area(small) * 4.0
  }

  datatype Scene = Scene(candidates: Bodies, imageWidth: int, imageHeight: int, hypot: (real, real) -> real) {

    ghost predicate Valid() {
      && imageWidth > 0 && imageHeight > 0
      && forall a, b :: 0 <= a < b < |candidates| ==> candidates[a].id != candidates[b].id
    }

    // ---------- Distance

    /** The distance from a table's body to a seat outside it; None stands for Infinity. */
    function BodyGap(table: Body, seat: Body): Option<real> {
      var dx, dy := AbsReal(table.x - seat.x), AbsReal(table.y - seat.y);
      if IsRounded(table) then
        var radius := hypot(dx / (table.width / 2.0), dy / (table.height / 2.0));
        if radius <= 1.0 then None else Some(hypot(dx, dy) * (1.0 - 1.0 / radius))
      else if dx <= table.width / 2.0 && dy <= table.height / 2.0 then None
      else Some(hypot(MaxReal(0.0, dx - table.width / 2.0), MaxReal(0.0, dy - table.height / 2.0)))
    }

    /** The table is large enough for the seat and close enough to it. */
    predicate Near(table: Body, seat: Body) {
      && FourTimes(table, seat)
      && BodyGap(table, seat).Some? && BodyGap(table, seat).value <= Diameter(seat) * 2.5
    }

    // ---------- Classification

    function Fitted(): Bodies {
      Filter(candidates, (c: Body) => c.shape.Some?)
    }

    function Children(c: Body): Bodies {
      Filter(Fitted(), (other: Body) => Contains(c, other))
    }

    predicate IsSection(c: Body) {
      && |Children(c)| >= 3
      && (exists k :: 0 <= k < |Children(c)| && FourTimes(c, Children(c)[k]))
      && Area(c) >= imageWidth as real * imageHeight as real * 0.08
    }

    function Sections(): Bodies {
      Filter(Fitted(), (c: Body) => IsSection(c))
    }

    function Remaining(): Bodies {
      Filter(Fitted(), (c: Body) => !HasId(Sections(), c.id))
    }

    function Family(c: Body): Bodies {
      Filter(Remaining(), (other: Body) => SimilarSize(c, other))
    }

    predicate LargerFamily(a: Body, b: Body) {
      |Family(a)| > |Family(b)| || (|Family(a)| == |Family(b)| && Area(a) < Area(b))
    }

    function Seats(): Bodies {
      var ranked := Sort(Remaining(), (a: Body, b: Body) => LargerFamily(a, b));
      if ranked != [] && |Family(ranked[0])| >= 3 then Family(ranked[0]) else []
    }

    function SeatsNear(body: Body): Bodies {
      Filter(Seats(), (seat: Body) => Near(body, seat))
    }

    function Tables(): Bodies {
      Filter(Remaining(), (body: Body) => !HasId(Seats(), body.id) && |SeatsNear(body)| >= 3)
    }

    function KindOf(c: Body): Kind {
      if HasId(Sections(), c.id) then SectionKind
      else if HasId(Tables(), c.id) then TableKind
      else if HasId(Seats(), c.id) then SeatKind
      else UnknownKind
    }

    // ---------- Parents

    function Enclosing(c: Body): Bodies {
      Sort(Filter(Sections(), (s: Body) => s.id != c.id && Contains(s, c)), (a: Body, b: Body) => Area(a) < Area(b))
    }

    function EnclosingId(c: Body): Option<string> {
      if Enclosing(c) == [] then None else Some(Enclosing(c)[0].id)
    }

    predicate Closer(seat: Body, a: Body, b: Body) {
      BodyGap(a, seat).GetOr(0.0) < BodyGap(b, seat).GetOr(0.0)
    }

    function Nearby(seat: Body): Bodies {
      Sort(Filter(Tables(), (table: Body) => Near(table, seat)), (a: Body, b: Body) => Closer(seat, a, b))
    }

    function RelationOf(seat: Body): Relation {
      var nearby := Nearby(seat);
      if nearby == [] then Loose
      else if |nearby| == 1 then Definite(nearby[0])
      else
        var closest, second := BodyGap(nearby[0], seat).GetOr(0.0), BodyGap(nearby[1], seat).GetOr(0.0);
        if second - closest < Diameter(seat) * 0.5 || second <= closest * 1.25
        then Ambiguous(nearby[0], nearby[1])
        else Definite(nearby[0])
    }

    /** The relation of a candidate, for seats only. */
    function Relating(c: Body): Relation {
      if KindOf(c) == SeatKind then RelationOf(c) else Loose
    }

    // ---------- Elements

    function ElementOf(c: Body): Element
      requires imageWidth > 0 && imageHeight > 0
    {
      var kind, relation := KindOf(c), Relating(c);
      var w, h := imageWidth as real, imageHeight as real;
      var geometry := Geometry(c.x / w, c.y / h, c.width / w, c.height / h, 0.0);
      Element(
        c.id, kind, geometry, geometry,
        if kind == SeatKind && c.shape == Some(Round) then Some(Circle) else c.shape,
        if relation.Definite? then Some(relation.table.id) else EnclosingId(c),
        None,
        kind == UnknownKind || relation.Ambiguous?,
        c.quality,
        if kind == UnknownKind then 0.35 else 0.8,
        match relation case Definite(_) => Some(0.85) case Ambiguous(_, _) => Some(0.4) case Loose => None)
    }

    function WarningsOf(c: Body): seq<Warning> {
      (match Relating(c)
       case Ambiguous(closest, second) => [AmbiguousParent(c.id, closest.id, second.id)]
       case _ => [])
      + if KindOf(c) == UnknownKind then [UnknownObject(c.id)] else []
    }

    function WarningsBefore(n: nat): seq<Warning>
      requires n <= |candidates|
    {
      if n == 0 then [GeometryOnly] else WarningsBefore(n - 1) + WarningsOf(candidates[n - 1])
    }

    predicate SitsAt(c: Body, table: string) {
      Relating(c).Definite? && Relating(c).table.id == table
    }

    /** How many of the first n candidates are seats that definitely belong to the table. */
    function SeatsAt(table: string, n: nat): nat
      requires n <= |candidates|
    {
      if n == 0 then 0 else SeatsAt(table, n - 1) + if SitsAt(candidates[n - 1], table) then 1 else 0
    }

    function FinalElement(c: Body): Element
      requires imageWidth > 0 && imageHeight > 0
    {
      var element := ElementOf(c);
      if element.kind == TableKind then element.(seatCount := Some(SeatsAt(c.id, |candidates|))) else element
    }
  }

  // ---------- The algorithm

  /** The counts after the first n candidates; a table that is not in the map counts as zero. */
  ghost predicate Counted(scene: Scene, seatCounts: map<string, nat>, n: nat)
    requires n <= |scene.candidates|
  {
    forall id :: (if id in seatCounts then seatCounts[id] else 0) == scene.SeatsAt(id, n)
  }

  /** The callback of the element pass, on candidate k. */
  method InterpretCandidate(scene: Scene, k: nat, warnings: seq<Warning>, seatCounts: map<string, nat>)
    returns (element: Element, newWarnings: seq<Warning>, newCounts: map<string, nat>)
    requires scene.imageWidth > 0 && scene.imageHeight > 0 && k < |scene.candidates|
    requires warnings == scene.WarningsBefore(k) && Counted(scene, seatCounts, k)
    ensures element == scene.ElementOf(scene.candidates[k])
    ensures newWarnings == scene.WarningsBefore(k + 1) && Counted(scene, newCounts, k + 1)
  {
    hide Scene.KindOf, Scene.RelationOf, Scene.EnclosingId;
    var candidate := scene.candidates[k];
    var kind := scene.KindOf(candidate);
    var w, h := scene.imageWidth as real, scene.imageHeight as real;
    var geometry := Geometry(candidate.x / w, candidate.y / h, candidate.width / w, candidate.height / h, 0.0);
    var shape := if kind == SeatKind && candidate.shape == Some(Round) then Some(Circle) else candidate.shape;
    element := Element(candidate.id, kind, geometry, geometry, shape, scene.EnclosingId(candidate), None,
                       kind == UnknownKind, candidate.quality, if kind == UnknownKind then 0.35 else 0.8, None);
    newWarnings, newCounts := warnings, seatCounts;
    if kind == SeatKind {
      match scene.RelationOf(candidate)
      case Ambiguous(closest, second) =>
        element := element.(needsReview := true, relationship := Some(0.4));
        newWarnings := newWarnings + [AmbiguousParent(candidate.id, closest.id, second.id)];
      case Definite(table) =>
        element := element.(parent := Some(table.id), relationship := Some(0.85));
        newCounts := newCounts[table.id := (if table.id in newCounts then newCounts[table.id] else 0) + 1];
      case Loose =>
    }
    if kind == UnknownKind {
      newWarnings := newWarnings + [UnknownObject(candidate.id)];
    }
  }

  lemma NothingCounted(scene: Scene, seatCounts: map<string, nat>)
    requires forall id :: id in seatCounts ==> seatCounts[id] == 0
    ensures Counted(scene, seatCounts, 0)
  {
  }

  /** One final element for each candidate, and every warning in order. */
  ghost predicate Delivered(scene: Scene, i: Interpretation)
    requires scene.imageWidth > 0 && scene.imageHeight > 0
  {
    && |i.elements| == |scene.candidates|
    && (forall k :: 0 <= k < |scene.candidates| ==> i.elements[k] == scene.FinalElement(scene.candidates[k]))
    && i.warnings == scene.WarningsBefore(|scene.candidates|) + if scene.candidates == [] then [NoObjects] else []
  }

  method Interpret(scene: Scene) returns (r: Result<Interpretation, ErrorCode>)
    requires scene.imageWidth > 0 && scene.imageHeight > 0
    ensures r.Err? <==> |scene.candidates| * |scene.candidates| > 2000000
    ensures r.Err? ==> r.error == SourceTooComplex
    ensures r.Ok? ==> Delivered(scene, r.value)
  {
    hide Counted, Scene.ElementOf, Scene.Tables, Scene.WarningsOf;
    var candidates := scene.candidates;
    if |candidates| * |candidates| > MAX_COMPARISONS {
      return Err(SourceTooComplex);
    }
    var warnings := [GeometryOnly];
    var seatCounts: map<string, nat> := map table | table in scene.Tables() :: table.id := 0;
    NothingCounted(scene, seatCounts);
    var elements: seq<Element> := [];
    for k := 0 to |candidates|
      invariant |elements| == k && forall i :: 0 <= i < k ==> elements[i] == scene.ElementOf(candidates[i])
      invariant warnings == scene.WarningsBefore(k) && Counted(scene, seatCounts, k)
    {
      var element;
      element, warnings, seatCounts := InterpretCandidate(scene, k, warnings, seatCounts);
      elements := elements + [element];
    }
    elements := SetSeatCounts(scene, elements, seatCounts);
    if elements == [] {
      warnings := warnings + [NoObjects];
    }
    return Ok(Interpretation(elements, warnings));
  }

  method SetSeatCounts(scene: Scene, elements: seq<Element>, seatCounts: map<string, nat>)
    returns (counted: seq<Element>)
    requires scene.imageWidth > 0 && scene.imageHeight > 0
    requires |elements| == |scene.candidates| && Counted(scene, seatCounts, |scene.candidates|)
    requires forall i :: 0 <= i < |elements| ==> elements[i] == scene.ElementOf(scene.candidates[i])
    ensures |counted| == |elements|
    ensures forall i :: 0 <= i < |counted| ==> counted[i] == scene.FinalElement(scene.candidates[i])
  {
    hide Scene.KindOf, Scene.Relating, Scene.EnclosingId;
    counted := elements;
    for k := 0 to |elements|
      invariant |counted| == |elements|
      invariant forall i :: 0 <= i < k ==> counted[i] == scene.FinalElement(scene.candidates[i])
      invariant forall i :: k <= i < |elements| ==> counted[i] == elements[i]
    {
      var element := counted[k];
      if element.kind == TableKind {
        var seats := if element.id in seatCounts then seatCounts[element.id] else 0;
        counted := counted[k := element.(seatCount := Some(seats))];
      }
    }
  }
}
