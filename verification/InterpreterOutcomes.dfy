/**
  What every element of an interpretation must be (layout-interpreter.ts): its kind from the shapes around it, its
  numbers from the candidate, and for a seat its table, its confidence and its warning from the distances alone.
 */
module InterpreterOutcomes {
  import opened Outcomes
  import opened Numbers
  import opened Raster
  import opened Containment
  import opened StableSort
  import opened Interpreter
  import opened InterpreterProperties

  // ---------- Kinds, from sets of shapes

  ghost predicate IsFitted(scene: Scene, c: Body) {
    c in scene.candidates && c.shape != None
  }

  /** The fitted shapes that a shape contains. */
  ghost function Contained(scene: Scene, c: Body): set<Body> {
    set x | x in scene.candidates && x.shape != None && Contains(c, x)
  }

  predicate IsQuarter(c: Body, x: Body) {
    c.width * c.height >= 4.0 * (x.width * x.height)
  }

  /** At least 8 % of the image. */
  predicate IsWide(scene: Scene, c: Body) {
    100.0 * (c.width * c.height) >= 8.0 * (scene.imageWidth as real * scene.imageHeight as real)
  }

  /** Three shapes inside, one of them at most a quarter of its size, and not too small a part of the image. */
  ghost predicate IsSectionShape(scene: Scene, c: Body) {
    && IsFitted(scene, c) && |Contained(scene, c)| >= 3
    && (exists x :: x in Contained(scene, c) && IsQuarter(c, x))
    && IsWide(scene, c)
  }

  ghost predicate IsLoose(scene: Scene, c: Body) {
    IsFitted(scene, c) && !IsSectionShape(scene, c)
  }

  /** Neither side differs by more than 35 %. */
  predicate Alike(a: Body, b: Body) {
    && a.width <= 1.35 * b.width && b.width <= 1.35 * a.width
    && a.height <= 1.35 * b.height && b.height <= 1.35 * a.height
  }

  /** The loose shapes of about the same size. */
  ghost function Kin(scene: Scene, c: Body): set<Body> {
    set x | x in scene.candidates && IsLoose(scene, x) && Alike(c, x)
  }

  /** No loose shape has more kin, and none with as many is smaller. */
  ghost predicate HasMostKin(scene: Scene, c: Body) {
    && IsLoose(scene, c) && |Kin(scene, c)| >= 3
    && forall x :: IsLoose(scene, x) ==>
         || |Kin(scene, x)| < |Kin(scene, c)|
         || (|Kin(scene, x)| == |Kin(scene, c)| && x.width * x.height >= c.width * c.height)
  }

  /** The set of seats: the kin of a shape that has most, or nothing when no shape has three. */
  ghost predicate AreSeats(scene: Scene, seats: set<Body>) {
    if exists c :: HasMostKin(scene, c) then exists c :: HasMostKin(scene, c) && seats == Kin(scene, c) else seats == {}
  }

  function Wider(s: Body): real {
    if s.width >= s.height then s.width else s.height
  }

  /** Four times as large as the seat, and no further from it than two and a half times its diameter. */
  predicate IsClose(scene: Scene, table: Body, seat: Body) {
    && table.width * table.height >= 4.0 * (seat.width * seat.height)
    && scene.BodyGap(table, seat).Some? && scene.BodyGap(table, seat).value <= 2.5 * Wider(seat)
  }

  /** Close to at least three seats, and not a seat itself. */
  ghost predicate IsTableShape(scene: Scene, seats: set<Body>, c: Body) {
    IsLoose(scene, c) && c !in seats && |set s | s in seats && IsClose(scene, c, s)| >= 3
  }

  // ---------- The lists are these sets

  lemma ListsDistinct(scene: Scene)
    requires scene.Valid()
    ensures DistinctIds(scene.Fitted()) && DistinctIds(scene.Sections()) && DistinctIds(scene.Remaining())
  {
    FilterKeepsIdsDistinct(scene.candidates, (c: Body) => c.shape.Some?);
    FilterKeepsIdsDistinct(scene.Fitted(), (c: Body) => scene.IsSection(c));
    FilterKeepsIdsDistinct(scene.Fitted(), (c: Body) => !HasId(scene.Sections(), c.id));
  }

  lemma FittedMeans(scene: Scene, c: Body)
    ensures c in scene.Fitted() <==> IsFitted(scene, c)
  {
  }

  lemma ChildrenAre(scene: Scene, c: Body)
    requires scene.Valid()
    ensures |scene.Children(c)| == |Contained(scene, c)|
    ensures forall x :: x in scene.Children(c) <==> x in Contained(scene, c)
  {
    hide Contains, DistinctIds;
    ListsDistinct(scene);
    FilterKeepsIdsDistinct(scene.Fitted(), (other: Body) => Contains(c, other));
    DistinctCount(scene.Children(c), Contained(scene, c));
  }

  lemma SizesMean(scene: Scene, c: Body)
    ensures IsWide(scene, c) <==> Area(c) >= scene.imageWidth as real * scene.imageHeight as real * 0.08
    ensures forall x :: IsQuarter(c, x) <==> FourTimes(c, x)
  {
  }

  lemma SectionMeans(scene: Scene, c: Body)
    requires scene.Valid()
    ensures c in scene.Sections() <==> IsSectionShape(scene, c)
  {
    hide Contains, Contained, Scene.Children, IsQuarter, IsWide, FourTimes, Area;
    ChildrenAre(scene, c);
    SizesMean(scene, c);
    var children := scene.Children(c);
    if c in scene.Sections() {
      var k :| 0 <= k < |children| && FourTimes(c, children[k]);
      assert children[k] in children;
    }
    if IsSectionShape(scene, c) {
      var x :| x in Contained(scene, c) && IsQuarter(c, x);
      var k :| 0 <= k < |children| && children[k] == x;
    }
  }

  lemma LooseMeans(scene: Scene, c: Body)
    requires scene.Valid()
    ensures c in scene.Remaining() <==> IsLoose(scene, c)
  {
    hide IsSectionShape, Scene.IsSection;
    SectionMeans(scene, c);
    if c in scene.candidates { IdIsMembership(scene, scene.Sections(), c); }
  }

  lemma RatioMeans(a: real, b: real)
    requires a > 0.0 && b > 0.0
    ensures MaxReal(a / b, b / a) <= 1.35 <==> a <= 1.35 * b && b <= 1.35 * a
  {
    QuotientBound(a, b);
    QuotientBound(b, a);
  }

  lemma QuotientBound(a: real, b: real)
    requires a > 0.0 && b > 0.0
    ensures a / b <= 1.35 <==> a <= 1.35 * b
  {
    QuotientOrder(a, b, 1.35);
  }

  lemma AlikeMeans(a: Body, b: Body)
    ensures SimilarSize(a, b) <==> Alike(a, b)
  {
    RatioMeans(a.width, b.width);
    RatioMeans(a.height, b.height);
  }

  lemma KinMeans(scene: Scene, c: Body)
    requires scene.Valid()
    ensures |scene.Family(c)| == |Kin(scene, c)|
    ensures forall x :: x in scene.Family(c) <==> x in Kin(scene, c)
  {
    hide SimilarSize, Alike, IsLoose, Scene.Remaining, DistinctIds;
    ListsDistinct(scene);
    FilterKeepsIdsDistinct(scene.Remaining(), (other: Body) => SimilarSize(c, other));
    forall x ensures x in scene.Family(c) <==> x in Kin(scene, c) {
      LooseMeans(scene, x);
      AlikeMeans(c, x);
      RemainingAreCandidates(scene, x);
    }
    DistinctCount(scene.Family(c), Kin(scene, c));
  }

  lemma RemainingAreCandidates(scene: Scene, c: Body)
    ensures c in scene.Remaining() ==> c in scene.candidates
  {
  }

  ghost function SeatSet(scene: Scene): set<Body> {
    set c | c in scene.Seats()
  }

  lemma SeatsMean(scene: Scene)
    requires scene.Valid()
    ensures AreSeats(scene, SeatSet(scene))
  {
    hide Scene.Remaining, Scene.Family, Kin, IsLoose, Scene.Seats;
    SeatsAreLargestFamily(scene);
    forall x ensures |scene.Family(x)| == |Kin(scene, x)| && (x in scene.Remaining() <==> IsLoose(scene, x)) {
      KinMeans(scene, x);
      LooseMeans(scene, x);
    }
    if scene.Seats() != [] {
      var c :| c in scene.Remaining() && scene.Seats() == scene.Family(c) && |scene.Family(c)| >= 3
        && forall other :: other in scene.Remaining() ==> !scene.LargerFamily(other, c);
      KinMeans(scene, c);
      assert SeatSet(scene) == Kin(scene, c);
      assert HasMostKin(scene, c);
    } else {
      assert SeatSet(scene) == {};
    }
  }

  lemma CloseMeans(scene: Scene, table: Body, seat: Body)
    ensures scene.Near(table, seat) <==> IsClose(scene, table, seat)
  {
    hide Scene.BodyGap;
  }

  lemma SeatsDistinct(scene: Scene)
    requires scene.Valid()
    ensures DistinctIds(scene.Seats())
  {
    hide Scene.Remaining, SimilarSize;
    ListsDistinct(scene);
    SeatsAreLargestFamily(scene);
    if scene.Seats() != [] {
      var c :| c in scene.Remaining() && scene.Seats() == scene.Family(c);
      FilterKeepsIdsDistinct(scene.Remaining(), (other: Body) => SimilarSize(c, other));
    }
  }

  lemma TableMeans(scene: Scene, c: Body)
    requires scene.Valid()
    ensures c in scene.Tables() <==> IsTableShape(scene, SeatSet(scene), c)
  {
    hide Scene.Remaining, Scene.Near, IsClose, IsLoose, Scene.Seats, DistinctIds;
    LooseMeans(scene, c);
    SeatsNearCount(scene, c);
    if c in scene.Remaining() {
      RemainingAreCandidates(scene, c);
      CandidatesOf(scene);
      IdIsMembership(scene, scene.Seats(), c);
    }
  }

  lemma SeatsNearCount(scene: Scene, c: Body)
    requires scene.Valid()
    ensures |scene.SeatsNear(c)| == |set s | s in SeatSet(scene) && IsClose(scene, c, s)|
  {
    hide Scene.Near, IsClose, Scene.Seats, DistinctIds;
    SeatsDistinct(scene);
    FilterKeepsIdsDistinct(scene.Seats(), (seat: Body) => scene.Near(c, seat));
    forall s ensures scene.Near(c, s) <==> IsClose(scene, c, s) { CloseMeans(scene, c, s); }
    DistinctCount(scene.SeatsNear(c), set s | s in SeatSet(scene) && IsClose(scene, c, s));
  }

  /** The kind of every candidate, from the shapes around it. */
  ghost predicate HasKind(scene: Scene, seats: set<Body>, c: Body, kind: Kind) {
    && (kind == SectionKind <==> IsSectionShape(scene, c))
    && (kind == TableKind <==> IsTableShape(scene, seats, c))
    && (kind == SeatKind <==> c in seats)
  }

  lemma KindMeans(scene: Scene, c: Body)
    requires scene.Valid() && c in scene.candidates
    ensures AreSeats(scene, SeatSet(scene)) && HasKind(scene, SeatSet(scene), c, scene.KindOf(c))
  {
    hide IsSectionShape, IsTableShape, AreSeats, Scene.Sections, Scene.Tables, Scene.Seats, Scene.KindOf;
    SeatsMean(scene);
    KindsPartition(scene, c);
    SectionMeans(scene, c);
    TableMeans(scene, c);
  }

  // ---------- Seats and their tables

  /** The gap between a table and a seat, where it is not infinite. */
  function Gap(scene: Scene, table: Body, seat: Body): real {
    scene.BodyGap(table, seat).GetOr(0.0)
  }

  ghost predicate IsCloseTable(scene: Scene, table: Body, seat: Body) {
    table in scene.Tables() && IsClose(scene, table, seat)
  }

  /** The other table is further by half a diameter of the seat, and by more than a quarter of the nearer gap. */
  predicate Apart(scene: Scene, table: Body, other: Body, seat: Body) {
    && Gap(scene, other, seat) - Gap(scene, table, seat) >= 0.5 * Wider(seat)
    && Gap(scene, other, seat) > 1.25 * Gap(scene, table, seat)
  }

  /** The one table that the seat can belong to. */
  ghost predicate IsClear(scene: Scene, table: Body, seat: Body) {
    && IsCloseTable(scene, table, seat)
    && forall other :: IsCloseTable(scene, other, seat) && other != table ==> Apart(scene, table, other, seat)
  }

  /** Two close tables, no other closer than they are. */
  ghost predicate AreNearest(scene: Scene, first: Body, second: Body, seat: Body) {
    && IsCloseTable(scene, first, seat) && IsCloseTable(scene, second, seat) && first != second
    && Gap(scene, first, seat) <= Gap(scene, second, seat)
    && forall other :: IsCloseTable(scene, other, seat) && other != first ==>
         Gap(scene, second, seat) <= Gap(scene, other, seat)
  }

  /** The tightest section around the shape, if any. */
  ghost predicate HasSection(scene: Scene, c: Body, parent: Option<string>) {
    if parent == None then forall s :: s in scene.Sections() ==> !(s.id != c.id && Contains(s, c))
    else exists s :: IsTightest(scene, c, s) && s.id == parent.value
  }

  ghost predicate IsTightest(scene: Scene, c: Body, s: Body) {
    && s in scene.Sections() && s.id != c.id && Contains(s, c)
    && forall t :: t in scene.Sections() && t.id != c.id && Contains(t, c) ==> s.width * s.height <= t.width * t.height
  }

  /**
    A seat belongs to the table that is clearly its nearest; with close tables but none clearly nearest it is left in
    its section, marked for review, and a warning names the two nearest; with no close table it is left in its section.
   */
  ghost predicate IsPlaced(scene: Scene, seat: Body, e: Element, warnings: seq<Warning>) {
    && (forall table :: table in scene.Tables() ==>
          (IsClear(scene, table, seat) <==>
             e.parent == Some(table.id) && e.relationship == Some(0.85) && !e.needsReview))
    && (e.relationship == Some(0.85) <==> exists table :: IsClear(scene, table, seat))
    && (e.relationship == Some(0.4) && e.needsReview <==>
          (exists table :: IsCloseTable(scene, table, seat)) && !exists table :: IsClear(scene, table, seat))
    && (e.relationship == None && !e.needsReview <==> !exists table :: IsCloseTable(scene, table, seat))
    && (e.relationship != Some(0.85) ==> HasSection(scene, seat, e.parent))
    && (e.relationship == Some(0.4) <==> exists first: Body, second: Body ::
          AreNearest(scene, first, second, seat) && AmbiguousParent(seat.id, first.id, second.id) in warnings)
  }

  lemma EnclosingMeans(scene: Scene, c: Body)
    ensures HasSection(scene, c, scene.EnclosingId(c))
  {
    hide Scene.Sections, Contains;
    EnclosingIsSection(scene, c);
    var around := scene.Enclosing(c);
    if around != [] {
      assert around[0] in around;
      assert IsTightest(scene, c, around[0]);
    } else {
      forall s | s in scene.Sections() ensures !(s.id != c.id && Contains(s, c)) {
        assert s !in around;
      }
    }
  }

  /** The nearby tables are the close ones, each once, nearest first. */
  /** The tables close to the seat, each once, by growing gap. */
  ghost predicate AreCloseTables(scene: Scene, seat: Body, nearby: Bodies) {
    && (forall t :: t in nearby <==> IsCloseTable(scene, t, seat))
    && (forall i, j :: 0 <= i < j < |nearby| ==> nearby[i] != nearby[j])
    && forall i, j :: 0 <= i < j < |nearby| ==>
         && IsClose(scene, nearby[i], seat) && IsClose(scene, nearby[j], seat)
         && Gap(scene, nearby[i], seat) <= Gap(scene, nearby[j], seat)
  }

  lemma NearbyMeans(scene: Scene, seat: Body)
    requires scene.Valid()
    ensures AreCloseTables(scene, seat, scene.Nearby(seat))
  {
    hide Scene.Tables, Scene.BodyGap, IsClose, Scene.Near, Scene.Nearby;
    NearbyIsSorted(scene, seat);
    NearbyDistinct(scene, seat);
    var nearby := scene.Nearby(seat);
    forall t ensures scene.Near(t, seat) <==> IsClose(scene, t, seat) { CloseMeans(scene, t, seat); }
    forall i, j | 0 <= i < j < |nearby|
      ensures IsClose(scene, nearby[i], seat) && IsClose(scene, nearby[j], seat)
      ensures Gap(scene, nearby[i], seat) <= Gap(scene, nearby[j], seat)
    {
      assert nearby[i] in nearby && nearby[j] in nearby;
      CloserMeans(scene, nearby[j], nearby[i], seat);
    }
  }

  lemma CloserMeans(scene: Scene, a: Body, b: Body, seat: Body)
    requires IsClose(scene, a, seat) && IsClose(scene, b, seat)
    ensures scene.Closer(seat, a, b) <==> Gap(scene, a, seat) < Gap(scene, b, seat)
  {
  }

  lemma NearbyDistinct(scene: Scene, seat: Body)
    requires scene.Valid()
    ensures forall i, j :: 0 <= i < j < |scene.Nearby(seat)| ==> scene.Nearby(seat)[i] != scene.Nearby(seat)[j]
  {
    hide Scene.Tables, Scene.Near, Scene.Closer;
    TableIdsDistinct(scene);
    var near := Filter(scene.Tables(), (table: Body) => scene.Near(table, seat));
    FilterKeepsIdsDistinct(scene.Tables(), (table: Body) => scene.Near(table, seat));
    SortKeepsDistinct(near, Sort(near, (a: Body, b: Body) => scene.Closer(seat, a, b)));
  }

  lemma SortKeepsDistinct(s: Bodies, r: Bodies)
    requires DistinctIds(s) && multiset(r) == multiset(s)
    ensures forall i, j :: 0 <= i < j < |r| ==> r[i] != r[j]
  {
    forall x ensures multiset(s)[x] <= 1 { OnceOnly(s, x); }
    forall i, j | 0 <= i < j < |r| ensures r[i] != r[j] {
      assert r == r[..j] + [r[j]] + r[j + 1..];
      assert r[i] in r[..j];
      assert multiset(r)[r[i]] <= 1;
    }
  }

  lemma {:induction false} OnceOnly(s: Bodies, x: Body)
    requires DistinctIds(s)
    ensures multiset(s)[x] <= 1
  {
    if s != [] {
      var init, last := s[..|s| - 1], s[|s| - 1];
      assert s == init + [last];
      OnceOnly(init, x);
      assert forall k :: 0 <= k < |init| ==> init[k].id != last.id;
    }
  }

  /** The relation of a seat to the tables, from the gaps alone. */
  ghost predicate RelationFits(scene: Scene, seat: Body, relation: Relation) {
    match relation
    case Loose => !exists table :: IsCloseTable(scene, table, seat)
    case Definite(table) => IsClear(scene, table, seat)
    case Ambiguous(first, second) =>
      AreNearest(scene, first, second, seat) && !exists table :: IsClear(scene, table, seat)
  }

  lemma RelationMeans(scene: Scene, seat: Body)
    requires scene.Valid()
    ensures RelationFits(scene, seat, scene.RelationOf(seat))
  {
    hide Scene.Tables, Scene.BodyGap, IsClose, Scene.Nearby;
    NearbyMeans(scene, seat);
    var nearby := scene.Nearby(seat);
    if nearby == [] {
      forall t ensures !IsCloseTable(scene, t, seat) { assert t !in nearby; }
    } else if |nearby| == 1 {
      assert nearby[0] in nearby;
      forall t | IsCloseTable(scene, t, seat) ensures t == nearby[0] { assert t in nearby; }
    } else {
      TwoNearby(scene, seat, nearby);
    }
  }

  lemma TwoNearby(scene: Scene, seat: Body, nearby: Bodies)
    requires |nearby| >= 2 && nearby == scene.Nearby(seat) && AreCloseTables(scene, seat, nearby)
    ensures RelationFits(scene, seat, scene.RelationOf(seat))
  {
    hide Scene.Tables, Scene.BodyGap, IsClose, Scene.Nearby;
    var first, second := nearby[0], nearby[1];
    assert first in nearby && second in nearby;
    GapIs(scene, first, seat);
    GapIs(scene, second, seat);
    forall t | IsCloseTable(scene, t, seat) && t != first ensures Gap(scene, second, seat) <= Gap(scene, t, seat) {
      assert t in nearby;
      var k :| 0 <= k < |nearby| && nearby[k] == t;
      if k > 1 { assert Gap(scene, nearby[1], seat) <= Gap(scene, nearby[k], seat); }
    }
    assert AreNearest(scene, first, second, seat);
    WiderMeans(seat);
    if Apart(scene, first, second, seat) {
      assert IsClear(scene, first, seat);
    } else {
      forall t ensures !IsClear(scene, t, seat) {
        assert IsClear(scene, t, seat) && t != first ==> Apart(scene, t, first, seat);
      }
    }
  }

  lemma WiderMeans(seat: Body)
    ensures Diameter(seat) == Wider(seat) > 0.0
  {
  }

  lemma GapIs(scene: Scene, table: Body, seat: Body)
    requires IsClose(scene, table, seat)
    ensures scene.BodyGap(table, seat) == Some(Gap(scene, table, seat))
  {
  }

  // ---------- Elements

  /** What an element says of its candidate: place and size in fractions of the image, outline, certainty. */
  ghost predicate Describes(scene: Scene, c: Body, e: Element) {
    var w, h := scene.imageWidth as real, scene.imageHeight as real;
    && e.id == c.id
    && e.geometry.x * w == c.x && e.geometry.y * h == c.y
    && e.geometry.width * w == c.width && e.geometry.height * h == c.height && e.geometry.rotation == 0.0
    && e.sourceBounds == e.geometry
    && e.shape == (if e.kind == SeatKind && c.shape == Some(Round) then Some(Circle) else c.shape)
    && e.quality == c.quality
    && e.classification == (if e.kind == UnknownKind then 0.35 else 0.8)
    && (e.kind != SeatKind ==> e.relationship == None && (e.needsReview <==> e.kind == UnknownKind))
    && (e.kind != SeatKind ==> HasSection(scene, c, e.parent))
    && (e.kind != TableKind <==> e.seatCount == None)
  }

  lemma ElementMeans(scene: Scene, c: Body)
    requires scene.imageWidth > 0 && scene.imageHeight > 0
    ensures Describes(scene, c, scene.FinalElement(c)) && scene.FinalElement(c).kind == scene.KindOf(c)
  {
    hide Scene.KindOf, Scene.RelationOf, Scene.EnclosingId, Scene.SeatsAt, HasSection;
    EnclosingMeans(scene, c);
    var w, h := scene.imageWidth as real, scene.imageHeight as real;
    Fraction(c.x, w);
    Fraction(c.y, h);
    Fraction(c.width, w);
    Fraction(c.height, h);
  }

  lemma Fraction(a: real, n: real)
    requires n > 0.0
    ensures (a / n) * n == a
  {
  }

  // ---------- Warnings

  /** What can be warned about a candidate. */
  lemma WarningsMean(scene: Scene, c: Body)
    ensures forall w :: w in scene.WarningsOf(c) <==>
      || (w == UnknownObject(c.id) && scene.KindOf(c) == UnknownKind)
      || (var relation := scene.Relating(c);
          relation.Ambiguous? && w == AmbiguousParent(c.id, relation.closest.id, relation.second.id))
  {
    hide Scene.KindOf, Scene.Relating;
  }

  lemma {:induction false} WarningsCollected(scene: Scene, n: nat)
    requires n <= |scene.candidates|
    ensures forall w :: w in scene.WarningsBefore(n) <==>
      w == GeometryOnly || exists k :: 0 <= k < n && w in scene.WarningsOf(scene.candidates[k])
  {
    hide Scene.WarningsOf;
    if n > 0 {
      WarningsCollected(scene, n - 1);
      forall w | w in scene.WarningsBefore(n) && w != GeometryOnly
        ensures exists k :: 0 <= k < n && w in scene.WarningsOf(scene.candidates[k])
      {
        if w in scene.WarningsBefore(n - 1) {
          var k :| 0 <= k < n - 1 && w in scene.WarningsOf(scene.candidates[k]);
        } else {
          assert w in scene.WarningsOf(scene.candidates[n - 1]);
        }
      }
    }
  }

  predicate IsAbout(w: Warning, id: string) {
    (w.UnknownObject? && w.id == id) || (w.AmbiguousParent? && w.seat == id)
  }

  /** Of all the warnings, those about an unknown shape or an ambiguous seat are the ones that its candidate gives. */
  lemma WarningsAbout(scene: Scene, i: Interpretation, k: nat, w: Warning)
    requires scene.Valid() && Delivered(scene, i) && k < |scene.candidates|
    requires IsAbout(w, scene.candidates[k].id)
    ensures w in i.warnings <==> w in scene.WarningsOf(scene.candidates[k])
  {
    hide Scene.WarningsBefore, Scene.WarningsOf, Delivered;
    var n := |scene.candidates|;
    WarningsDelivered(scene, i, w);
    WarningsCollected(scene, n);
    forall j | 0 <= j < n && w in scene.WarningsOf(scene.candidates[j]) ensures j == k { WarningNames(scene, j, k, w); }
  }

  lemma WarningsDelivered(scene: Scene, i: Interpretation, w: Warning)
    requires scene.imageWidth > 0 && scene.imageHeight > 0 && Delivered(scene, i) && !w.NoObjects?
    ensures w in i.warnings <==> w in scene.WarningsBefore(|scene.candidates|)
  {
    hide Scene.WarningsBefore, Scene.FinalElement;
  }

  /** A warning about an id comes from the candidate with that id. */
  lemma WarningNames(scene: Scene, j: nat, k: nat, w: Warning)
    requires scene.Valid() && j < |scene.candidates| && k < |scene.candidates|
    requires w in scene.WarningsOf(scene.candidates[j])
    requires IsAbout(w, scene.candidates[k].id)
    ensures j == k
  {
    hide Scene.WarningsOf, Scene.KindOf, Scene.Relating;
    WarningsMean(scene, scene.candidates[j]);
    assert scene.candidates[j].id == scene.candidates[k].id;
  }

  // ---------- The result

  /** The seats among the elements that have the parent. */
  function SeatsOf(elements: seq<Element>, parent: string): set<int> {
    set k | 0 <= k < |elements| && elements[k].kind == SeatKind && elements[k].parent == Some(parent)
  }

  lemma SeatCountHolds(scene: Scene, i: Interpretation, k: nat)
    requires scene.Valid() && Delivered(scene, i) && k < |i.elements|
    ensures i.elements[k].seatCount ==
      if i.elements[k].kind == TableKind then Some(|SeatsOf(i.elements, i.elements[k].id)|) else None
  {
    hide Scene.Tables, Scene.Sections, Scene.SeatsAt, Scene.KindOf, Scene.Relating, Scene.EnclosingId, Scene.Valid,
      Scene.WarningsBefore, SeatsOf, SeatsWithParent;
    var c, n := scene.candidates[k], |scene.candidates|;
    if i.elements[k].kind == TableKind {
      KindsPartition(scene, c);
      SeatCountIsExact(scene, c, n);
      SameSeats(scene, i, c.id);
    }
  }

  lemma SameSeats(scene: Scene, i: Interpretation, id: string)
    requires scene.Valid() && Delivered(scene, i)
    ensures SeatsOf(i.elements, id) == SeatsWithParent(scene, id, |scene.candidates|)
  {
    hide Scene.SeatsAt, Scene.KindOf, Scene.Relating, Scene.EnclosingId, Scene.WarningsBefore;
  }

  predicate IsAboutSome(w: Warning, candidates: seq<Body>) {
    exists k :: 0 <= k < |candidates| && IsAbout(w, candidates[k].id)
  }

  /** What the first is about comes before what the second is about. */
  predicate IsEarlier(v: Warning, w: Warning, candidates: seq<Body>) {
    forall k, m :: (0 <= k < |candidates| && 0 <= m < |candidates|
                    && IsAbout(v, candidates[k].id) && IsAbout(w, candidates[m].id)) ==> k < m
  }

  /** The general warning, then those about shapes, in the order of the shapes and at most one about each. */
  ghost predicate AreOrdered(ws: seq<Warning>, candidates: seq<Body>) {
    && ws != [] && ws[0] == GeometryOnly
    && (forall a :: 0 < a < |ws| ==> IsAboutSome(ws[a], candidates))
    && forall a, b :: 0 <= a < b < |ws| ==> IsEarlier(ws[a], ws[b], candidates)
  }

  lemma IsNotAbout(w: Warning, candidates: seq<Body>, c: Body)
    requires w == GeometryOnly || IsAboutSome(w, candidates)
    requires forall k :: 0 <= k < |candidates| ==> candidates[k].id != c.id
    ensures !IsAbout(w, c.id)
  {
  }

  lemma OneMoreShape(v: Warning, w: Warning, candidates: seq<Body>, c: Body)
    requires !IsAbout(v, c.id) && IsEarlier(v, w, candidates)
    ensures IsEarlier(v, w, candidates + [c])
  {
    hide IsAbout;
  }

  lemma NewestIsLater(v: Warning, w: Warning, candidates: seq<Body>, c: Body)
    requires !IsAbout(v, c.id) && IsAbout(w, c.id)
    requires forall k :: 0 <= k < |candidates| ==> candidates[k].id != c.id
    ensures IsEarlier(v, w, candidates + [c])
  {
  }

  lemma StillAbout(w: Warning, candidates: seq<Body>, c: Body)
    requires IsAboutSome(w, candidates) || IsAbout(w, c.id)
    ensures IsAboutSome(w, candidates + [c])
  {
    var all := candidates + [c];
    assert all[|candidates|] == c && forall k :: 0 <= k < |candidates| ==> all[k] == candidates[k];
  }

  lemma OneMoreWarning(ws: seq<Warning>, more: seq<Warning>, candidates: seq<Body>, c: Body)
    requires AreOrdered(ws, candidates) && |more| <= 1 && (forall w :: w in more ==> IsAbout(w, c.id))
    requires forall k :: 0 <= k < |candidates| ==> candidates[k].id != c.id
    ensures AreOrdered(ws + more, candidates + [c])
  {
    hide IsAbout, IsAboutSome, IsEarlier;
    var all := ws + more;
    forall a | 0 < a < |all| ensures IsAboutSome(all[a], candidates + [c]) { StillAbout(all[a], candidates, c); }
    forall a, b | 0 <= a < b < |all| ensures IsEarlier(all[a], all[b], candidates + [c]) {
      IsNotAbout(all[a], candidates, c);
      if b < |ws| {
        OneMoreShape(all[a], all[b], candidates, c);
      } else {
        NewestIsLater(all[a], all[b], candidates, c);
      }
    }
  }

  lemma OneWarning(scene: Scene, c: Body)
    ensures |scene.WarningsOf(c)| <= 1 && forall w :: w in scene.WarningsOf(c) ==> IsAbout(w, c.id)
  {
    hide Scene.KindOf, Scene.RelationOf;
  }

  lemma {:induction false} WarningsAreOrdered(scene: Scene, n: nat)
    requires scene.Valid() && n <= |scene.candidates|
    ensures AreOrdered(scene.WarningsBefore(n), scene.candidates[..n])
  {
    hide AreOrdered, Scene.WarningsOf, IsAbout;
    if n == 0 {
      GeneralWarningIsOrdered();
      assert scene.candidates[..n] == [];
    } else {
      WarningsAreOrdered(scene, n - 1);
      var c := scene.candidates[n - 1];
      OneWarning(scene, c);
      OneMoreWarning(scene.WarningsBefore(n - 1), scene.WarningsOf(c), scene.candidates[..n - 1], c);
      assert scene.candidates[..n - 1] + [c] == scene.candidates[..n];
    }
  }

  lemma GeneralWarningIsOrdered()
    ensures AreOrdered([GeometryOnly], [])
  {
  }

  /** The warnings of a result: one about the absence of shapes, or those about shapes in their order. */
  ghost predicate HasWarnings(scene: Scene, ws: seq<Warning>) {
    if scene.candidates == [] then ws == [GeometryOnly, NoObjects] else AreOrdered(ws, scene.candidates)
  }

  lemma WarningsAreRight(scene: Scene, i: Interpretation)
    requires scene.Valid() && Delivered(scene, i)
    ensures HasWarnings(scene, i.warnings)
  {
    hide AreOrdered, Scene.WarningsBefore, Delivered;
    var n := |scene.candidates|;
    WarningsAre(scene, i);
    WarningsAreOrdered(scene, n);
    assert scene.candidates[..n] == scene.candidates;
  }

  lemma WarningsAre(scene: Scene, i: Interpretation)
    requires scene.Valid() && Delivered(scene, i)
    ensures i.warnings ==
      if scene.candidates == [] then [GeometryOnly, NoObjects] else scene.WarningsBefore(|scene.candidates|)
  {
    hide Scene.FinalElement, Scene.WarningsOf;
  }

  /** Every element of the result is what it must be, and so are the warnings. */
  ghost predicate IsInterpretation(scene: Scene, i: Interpretation)
    requires scene.imageWidth > 0 && scene.imageHeight > 0
  {
    && |i.elements| == |scene.candidates| && AreSeats(scene, SeatSet(scene)) && HasWarnings(scene, i.warnings)
    && forall k :: 0 <= k < |i.elements| ==> IsElement(scene, i, k)
  }

  ghost predicate IsElement(scene: Scene, i: Interpretation, k: nat)
    requires k < |i.elements| && k < |scene.candidates|
  {
    var c, e := scene.candidates[k], i.elements[k];
    && HasKind(scene, SeatSet(scene), c, e.kind) && Describes(scene, c, e)
    && (e.kind == SeatKind ==> IsPlaced(scene, c, e, i.warnings))
    && (e.kind == UnknownKind <==> UnknownObject(c.id) in i.warnings)
    && (e.kind == TableKind ==> e.seatCount == Some(|SeatsOf(i.elements, e.id)|))
  }

  lemma ResultIsInterpretation(scene: Scene, i: Interpretation)
    requires scene.Valid() && Delivered(scene, i)
    ensures IsInterpretation(scene, i)
  {
    hide IsElement, AreSeats, Delivered, HasWarnings;
    SeatsMean(scene);
    WarningsAreRight(scene, i);
    DeliversAll(scene, i);
    forall k | 0 <= k < |i.elements| ensures IsElement(scene, i, k) { ElementIsRight(scene, i, k); }
  }

  lemma DeliversAll(scene: Scene, i: Interpretation)
    requires scene.Valid() && Delivered(scene, i)
    ensures |i.elements| == |scene.candidates|
  {
  }

  lemma ElementIsRight(scene: Scene, i: Interpretation, k: nat)
    requires scene.Valid() && Delivered(scene, i) && k < |scene.candidates|
    ensures IsElement(scene, i, k)
  {
    hide HasKind, Describes, IsPlaced, AreSeats, Scene.FinalElement, Scene.WarningsBefore, Scene.WarningsOf,
      Scene.KindOf, Scene.Relating, SeatsOf;
    var c := scene.candidates[k];
    SeatCountHolds(scene, i, k);
    KindMeans(scene, c);
    ElementMeans(scene, c);
    WarningsAbout(scene, i, k, UnknownObject(c.id));
    WarningsMean(scene, c);
    if scene.KindOf(c) == SeatKind { SeatIsPlaced(scene, i, k); }
  }

  /** A seat's element and warnings follow its relation. */
  lemma SeatReads(scene: Scene, c: Body)
    requires scene.imageWidth > 0 && scene.imageHeight > 0 && scene.KindOf(c) == SeatKind
    ensures var e, relation := scene.FinalElement(c), scene.RelationOf(c);
      && scene.Relating(c) == relation
      && e.parent == (if relation.Definite? then Some(relation.table.id) else scene.EnclosingId(c))
      && e.relationship == (if relation.Definite? then Some(0.85) else if relation.Ambiguous? then Some(0.4) else None)
      && e.needsReview == relation.Ambiguous?
  {
    hide Scene.KindOf, Scene.RelationOf, Scene.EnclosingId, Scene.SeatsAt;
  }

  lemma SeatIsPlaced(scene: Scene, i: Interpretation, k: nat)
    requires scene.Valid() && Delivered(scene, i) && k < |scene.candidates|
    requires scene.KindOf(scene.candidates[k]) == SeatKind
    ensures IsPlaced(scene, scene.candidates[k], scene.FinalElement(scene.candidates[k]), i.warnings)
  {
    hide Scene.FinalElement, Scene.WarningsBefore, Scene.WarningsOf, Scene.KindOf, Scene.RelationOf, Scene.Relating,
      Scene.EnclosingId, Scene.Tables, HasSection, AreNearest, IsClear, IsCloseTable, Delivered;
    var c := scene.candidates[k];
    RelationMeans(scene, c);
    SeatReads(scene, c);
    EnclosingMeans(scene, c);
    OneClear(scene, c);
    NearestAreClose(scene, c);
    WarningsMean(scene, c);
    forall first: Body, second: Body
      ensures AmbiguousParent(c.id, first.id, second.id) in i.warnings
        <==> AmbiguousParent(c.id, first.id, second.id) in scene.WarningsOf(c)
    {
      WarningsAbout(scene, i, k, AmbiguousParent(c.id, first.id, second.id));
    }
  }

  /** At most one table is clear, and ids tell tables apart. */
  lemma OneClear(scene: Scene, seat: Body)
    requires scene.Valid()
    ensures forall a, b :: IsClear(scene, a, seat) && IsClear(scene, b, seat) ==> a == b
    ensures forall a, b :: a in scene.Tables() && b in scene.Tables() && a.id == b.id ==> a == b
    ensures forall a :: IsClear(scene, a, seat) ==> a in scene.Tables() && IsCloseTable(scene, a, seat)
  {
    hide Scene.Tables, IsClose, Scene.BodyGap;
    CandidatesOf(scene);
    WiderMeans(seat);
    forall a, b | IsClear(scene, a, seat) && IsClear(scene, b, seat) ensures a == b {
      assert a != b ==> Apart(scene, a, b, seat) && Apart(scene, b, a, seat);
    }
    forall a, b | a in scene.Tables() && b in scene.Tables() && a.id == b.id ensures a == b { SameId(scene, a, b); }
  }

  lemma NearestAreClose(scene: Scene, seat: Body)
    ensures forall a, b :: AreNearest(scene, a, b, seat) ==> IsCloseTable(scene, a, seat)
  {
  }
}
