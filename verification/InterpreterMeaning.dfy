/**
  What an interpretation means, without the lists and the ranking by which it is computed (layout-interpreter.ts):
  distances between outlines, sets of shapes, and for each element the numbers and the parent that it must have.
 */
module InterpreterMeaning {
  import opened Outcomes
  import opened Raster
  import opened Containment
  import opened StableSort
  import opened Interpreter
  import opened InterpreterProperties

  // ---------- Distances

  /** The Euclidean norm; its square root is not computed, only known by its square. */
  ghost predicate IsNorm(hypot: (real, real) -> real) {
    forall x, y :: hypot(x, y) >= 0.0 && hypot(x, y) * hypot(x, y) == x * x + y * y
  }

  function SquaredDistance(px: real, py: real, qx: real, qy: real): real {
    (px - qx) * (px - qx) + (py - qy) * (py - qy)
  }

  /** Where the point lies from the centre, in radii, squared: 1 on the outline of a round or oval shape. */
  function RadiiSquared(s: Body, px: real, py: real): real {
    var u, v := (px - s.x) / (s.width / 2.0), (py - s.y) / (s.height / 2.0);
    u * u + v * v
  }

  /** The nearest point of the box lies at this distance. */
  ghost predicate IsBoxDistance(table: Body, seat: Body, gap: real) {
    && gap >= 0.0
    && (forall px, py :: PointInBox(table, px, py) ==> gap * gap <= SquaredDistance(px, py, seat.x, seat.y))
    && exists px, py :: PointInBox(table, px, py) && gap * gap == SquaredDistance(px, py, seat.x, seat.y)
  }

  /** The point between the centre of the table and the seat that is on the outline lies at this distance. */
  ghost predicate IsRadialDistance(table: Body, seat: Body, gap: real) {
    gap >= 0.0 && exists t :: IsCrossing(table, seat, gap, t)
  }

  predicate IsCrossing(table: Body, seat: Body, gap: real, t: real) {
    var px, py := table.x + t * (seat.x - table.x), table.y + t * (seat.y - table.y);
    0.0 < t < 1.0 && RadiiSquared(table, px, py) == 1.0 && gap * gap == SquaredDistance(px, py, seat.x, seat.y)
  }

  /**
    The gap is infinite when the seat's centre lies in the table's body; else it is the distance to the box, or for a
    round or oval table the distance along the line to its centre.
   */
  lemma GapMeans(scene: Scene, table: Body, seat: Body)
    requires IsNorm(scene.hypot)
    ensures var round := table.shape == Some(Round) || table.shape == Some(Oval);
      match scene.BodyGap(table, seat)
      case None => if round then RadiiSquared(table, seat.x, seat.y) <= 1.0 else PointInBox(table, seat.x, seat.y)
      case Some(gap) =>
        if round then RadiiSquared(table, seat.x, seat.y) > 1.0 && IsRadialDistance(table, seat, gap)
        else !PointInBox(table, seat.x, seat.y) && IsBoxDistance(table, seat, gap)
  {
    if IsRounded(table) { RadialGap(scene, table, seat); } else { BoxGap(scene, table, seat); }
  }

  lemma SquareLeast(a: real, b: real)
    requires 0.0 <= a <= b
    ensures a * a <= b * b
  {
    SquareMonotone(a, b);
  }

  /** The nearest place to q within r of the centre c. */
  function Clamp(c: real, r: real, q: real): real {
    if q < c - r then c - r else if q > c + r then c + r else q
  }

  lemma ClampIsNearest(c: real, r: real, q: real, p: real)
    requires r > 0.0 && c - r <= p <= c + r
    ensures var d := MaxReal(0.0, AbsReal(c - q) - r);
      d * d == (Clamp(c, r, q) - q) * (Clamp(c, r, q) - q) <= (p - q) * (p - q)
  {
    var d, e := MaxReal(0.0, AbsReal(c - q) - r), Clamp(c, r, q) - q;
    assert e == d || e == -d;
    assert d * d == e * e by { assert (-d) * (-d) == d * d; }
    SquareLeast(d, AbsReal(p - q));
    assert AbsReal(p - q) * AbsReal(p - q) == (p - q) * (p - q) by { assert (q - p) * (q - p) == (p - q) * (p - q); }
  }

  lemma BoxGap(scene: Scene, table: Body, seat: Body)
    requires IsNorm(scene.hypot) && !IsRounded(table)
    ensures scene.BodyGap(table, seat).None? <==> PointInBox(table, seat.x, seat.y)
    ensures scene.BodyGap(table, seat).Some? ==> IsBoxDistance(table, seat, scene.BodyGap(table, seat).value)
  {
    hide IsNorm, PointInBox, MaxReal, AbsReal;
    BoxGapIs(scene, table, seat);
    if scene.BodyGap(table, seat).Some? {
      var a := MaxReal(0.0, AbsReal(table.x - seat.x) - table.width / 2.0);
      var b := MaxReal(0.0, AbsReal(table.y - seat.y) - table.height / 2.0);
      NormOf(scene.hypot, a, b);
      BoxDistance(table, seat, scene.hypot(a, b), a, b);
    }
  }

  lemma NormOf(hypot: (real, real) -> real, x: real, y: real)
    requires IsNorm(hypot)
    ensures hypot(x, y) >= 0.0 && hypot(x, y) * hypot(x, y) == x * x + y * y
  {
  }

  lemma BoxGapIs(scene: Scene, table: Body, seat: Body)
    requires !IsRounded(table)
    ensures var a := MaxReal(0.0, AbsReal(table.x - seat.x) - table.width / 2.0);
      var b := MaxReal(0.0, AbsReal(table.y - seat.y) - table.height / 2.0);
      scene.BodyGap(table, seat) == if PointInBox(table, seat.x, seat.y) then None else Some(scene.hypot(a, b))
  {
  }

  lemma BoxDistance(table: Body, seat: Body, gap: real, a: real, b: real)
    requires gap >= 0.0 && gap * gap == a * a + b * b
    requires a == MaxReal(0.0, AbsReal(table.x - seat.x) - table.width / 2.0)
    requires b == MaxReal(0.0, AbsReal(table.y - seat.y) - table.height / 2.0)
    ensures IsBoxDistance(table, seat, gap)
  {
    hide Clamp, MaxReal, AbsReal;
    var rx, ry := table.width / 2.0, table.height / 2.0;
    var nx, ny := Clamp(table.x, rx, seat.x), Clamp(table.y, ry, seat.y);
    ClampInside(table.x, rx, seat.x);
    ClampInside(table.y, ry, seat.y);
    ClampIsNearest(table.x, rx, seat.x, nx);
    ClampIsNearest(table.y, ry, seat.y, ny);
    assert PointInBox(table, nx, ny) && gap * gap == SquaredDistance(nx, ny, seat.x, seat.y);
    forall px, py | PointInBox(table, px, py) ensures gap * gap <= SquaredDistance(px, py, seat.x, seat.y) {
      ClampIsNearest(table.x, rx, seat.x, px);
      ClampIsNearest(table.y, ry, seat.y, py);
    }
  }

  lemma ClampInside(c: real, r: real, q: real)
    requires r > 0.0
    ensures c - r <= Clamp(c, r, q) <= c + r
  {
  }

  lemma ProductSquare(a: real, b: real)
    ensures (a * b) * (a * b) == (a * a) * (b * b)
  {
  }

  lemma BelowOne(r: real)
    requires r >= 0.0
    ensures r <= 1.0 <==> r * r <= 1.0
  {
    if r <= 1.0 { SquareLeast(r, 1.0); } else { assert (r - 1.0) * (r + 1.0) > 0.0; }
  }

  lemma RadialGap(scene: Scene, table: Body, seat: Body)
    requires IsNorm(scene.hypot) && IsRounded(table)
    ensures scene.BodyGap(table, seat).None? <==> RadiiSquared(table, seat.x, seat.y) <= 1.0
    ensures scene.BodyGap(table, seat).Some? ==> IsRadialDistance(table, seat, scene.BodyGap(table, seat).value)
  {
    hide IsNorm, AbsReal, RadiiSquared, IsRadialDistance, SquaredDistance, Scene.BodyGap, Times;
    var dx, dy := AbsReal(table.x - seat.x), AbsReal(table.y - seat.y);
    var u, v := dx / (table.width / 2.0), dy / (table.height / 2.0);
    var radius, distance := scene.hypot(u, v), scene.hypot(dx, dy);
    NormOf(scene.hypot, u, v);
    NormOf(scene.hypot, dx, dy);
    OffsetsSquared(table, seat);
    BelowOne(radius);
    RadialGapIs(scene, table, seat);
    if radius > 1.0 { RadialCrossing(table, seat, radius, distance, scene.BodyGap(table, seat).value); }
  }

  lemma RadialGapIs(scene: Scene, table: Body, seat: Body)
    requires IsRounded(table)
    ensures var dx, dy := AbsReal(table.x - seat.x), AbsReal(table.y - seat.y);
      var radius := scene.hypot(dx / (table.width / 2.0), dy / (table.height / 2.0));
      && (scene.BodyGap(table, seat).None? <==> radius <= 1.0)
      && (radius > 1.0 ==> scene.BodyGap(table, seat).value == Times(scene.hypot(dx, dy), 1.0 - 1.0 / radius))
  {
  }

  function Times(a: real, b: real): real {
    a * b
  }

  lemma OffsetsSquared(table: Body, seat: Body)
    ensures var dx, dy := AbsReal(table.x - seat.x), AbsReal(table.y - seat.y);
      var u, v := dx / (table.width / 2.0), dy / (table.height / 2.0);
      && u * u + v * v == RadiiSquared(table, seat.x, seat.y)
      && dx * dx + dy * dy == SquaredDistance(table.x, table.y, seat.x, seat.y)
  {
    SignFree(table.x - seat.x, table.width / 2.0);
    SignFree(table.y - seat.y, table.height / 2.0);
    MirrorSquare(table.x, seat.x, table.width / 2.0);
    MirrorSquare(table.y, seat.y, table.height / 2.0);
  }

  lemma MirrorSquare(a: real, b: real, r: real)
    requires r > 0.0
    ensures ((a - b) / r) * ((a - b) / r) == ((b - a) / r) * ((b - a) / r)
  {
    assert (b - a) / r == -((a - b) / r);
  }

  lemma RadialCrossing(table: Body, seat: Body, radius: real, distance: real, gap: real)
    requires radius > 1.0 && radius * radius == RadiiSquared(table, seat.x, seat.y)
    requires distance >= 0.0 && distance * distance == SquaredDistance(table.x, table.y, seat.x, seat.y)
    requires gap == Times(distance, 1.0 - 1.0 / radius)
    ensures IsRadialDistance(table, seat, gap)
  {
    var t := 1.0 / radius;
    Reciprocal(radius);
    hide RadiiSquared, SquaredDistance;
    OnTheWay(table, seat, t);
    UnitProduct(RadiiSquared(table, seat.x, seat.y), t, radius);
    ScaledSquare(SquaredDistance(table.x, table.y, seat.x, seat.y), distance, 1.0 - t, gap);
    assert IsCrossing(table, seat, gap, t);
  }

  lemma Reciprocal(radius: real)
    requires radius > 1.0
    ensures (1.0 / radius) * radius == 1.0 && 0.0 < 1.0 / radius < 1.0
  {
  }

  lemma UnitProduct(r: real, t: real, radius: real)
    requires radius * radius == r && t * radius == 1.0
    ensures (t * t) * r == 1.0
  {
    ProductSquare(t, radius);
  }

  lemma ScaledSquare(d: real, distance: real, f: real, gap: real)
    requires distance >= 0.0 && f >= 0.0 && distance * distance == d && gap == Times(distance, f)
    ensures gap >= 0.0 && gap * gap == d * (f * f)
  {
    ProductSquare(distance, f);
  }

  /** A point part of the way from the table's centre to the seat: its place in radii, and its distance to the seat. */
  lemma OnTheWay(table: Body, seat: Body, t: real)
    ensures var px, py := table.x + t * (seat.x - table.x), table.y + t * (seat.y - table.y);
      && RadiiSquared(table, px, py) == (t * t) * RadiiSquared(table, seat.x, seat.y)
      && SquaredDistance(px, py, seat.x, seat.y)
         == SquaredDistance(table.x, table.y, seat.x, seat.y) * ((1.0 - t) * (1.0 - t))
  {
    PartOfWay(table.x, seat.x, t, table.width / 2.0);
    PartOfWay(table.y, seat.y, t, table.height / 2.0);
    var a, b := (table.x - seat.x) * (table.x - seat.x), (table.y - seat.y) * (table.y - seat.y);
    var u := (seat.x - table.x) / (table.width / 2.0);
    var v := (seat.y - table.y) / (table.height / 2.0);
    Distributes(t * t, u * u, v * v);
    Distributes((1.0 - t) * (1.0 - t), a, b);
  }

  lemma Distributes(f: real, a: real, b: real)
    ensures f * (a + b) == f * a + f * b
  {
  }

  lemma PartOfWay(c: real, q: real, t: real, r: real)
    requires r > 0.0
    ensures var p := c + t * (q - c);
      && ((p - c) / r) * ((p - c) / r) == (t * t) * (((q - c) / r) * ((q - c) / r))
      && (p - q) * (p - q) == ((1.0 - t) * (1.0 - t)) * ((c - q) * (c - q))
  {
    var p, u := c + t * (q - c), (q - c) / r;
    assert q - c == u * r;
    assert p - c == (t * u) * r;
    assert (p - c) / r == t * u;
    ProductSquare(t, u);
    assert p - q == (1.0 - t) * (c - q);
    ProductSquare(1.0 - t, c - q);
  }
}
