/** Containment between shapes (layout-interpreter.ts, contains): the inner box lies inside the outer outline. */
module Containment {
  import opened Outcomes
  import opened Raster

  predicate Sized(s: ShapeCandidate) {
    s.width > 0.0 && s.height > 0.0
  }

  /** A shape with a positive extent, as every extracted candidate is. */
  type Body = s: ShapeCandidate | Sized(s) witness ShapeCandidate("", 0.0, 0.0, 1.0, 1.0, None, 1.0)

  function Area(s: ShapeCandidate): real {
    s.width * s.height
  }

  predicate IsRounded(s: ShapeCandidate) {
    s.shape == Some(Round) || s.shape == Some(Oval)
  }

  /** How far the inner box reaches from the outer centre, along one axis. */
  function Reach(outerCentre: real, innerCentre: real, innerExtent: real): real {
    AbsReal(outerCentre - innerCentre) + innerExtent / 2.0
  }

  predicate InEllipse(dx: real, dy: real, outer: Body)
  {
    var u, v := dx / (outer.width / 2.0), dy / (outer.height / 2.0);
    u * u + v * v < 1.0
  }

  predicate Contains(outer: Body, inner: Body)
  {
    var dx, dy := Reach(outer.x, inner.x, inner.width), Reach(outer.y, inner.y, inner.height);
    if IsRounded(outer) then InEllipse(dx, dy, outer) else dx < outer.width / 2.0 && dy < outer.height / 2.0
  }

  lemma UnitSquares(u: real, v: real)
    requires u >= 0.0 && v >= 0.0 && u * u + v * v < 1.0
    ensures u < 1.0 && v < 1.0
  {
    assert u * u >= 0.0 && v * v >= 0.0;
    SquareGrows(u);
    SquareGrows(v);
  }

  lemma SquareGrows(u: real)
    ensures u >= 1.0 ==> u * u >= 1.0
  {
    assert u >= 1.0 ==> (u - 1.0) * (u + 1.0) >= 0.0;
  }

  lemma BelowRadius(d: real, r: real)
    requires r > 0.0 && d / r < 1.0
    ensures d < r
  {
    assert d == (d / r) * r;
  }

  /** Whatever its outline, the outer shape's box contains the inner box with room to spare. */
  lemma ContainedInBox(outer: Body, inner: Body)
    requires Contains(outer, inner)
    ensures Reach(outer.x, inner.x, inner.width) < outer.width / 2.0
    ensures Reach(outer.y, inner.y, inner.height) < outer.height / 2.0
  {
    if IsRounded(outer) {
      var dx, dy := Reach(outer.x, inner.x, inner.width), Reach(outer.y, inner.y, inner.height);
      var u, v := dx / (outer.width / 2.0), dy / (outer.height / 2.0);
      UnitSquares(u, v);
      BelowRadius(dx, outer.width / 2.0);
      BelowRadius(dy, outer.height / 2.0);
    }
  }

  lemma SquareMonotone(a: real, b: real)
    requires 0.0 <= a <= b
    ensures a * a <= b * b
  {
    assert (b - a) * (b + a) >= 0.0;
  }

  /** A box that reaches no further than a contained box is contained too. */
  lemma SmallerReach(outer: Body, middle: Body, inner: Body)
    requires Contains(outer, middle)
    requires Reach(outer.x, inner.x, inner.width) <= Reach(outer.x, middle.x, middle.width)
    requires Reach(outer.y, inner.y, inner.height) <= Reach(outer.y, middle.y, middle.height)
    ensures Contains(outer, inner)
  {
    if IsRounded(outer) {
      var rx, ry := outer.width / 2.0, outer.height / 2.0;
      var dx, dy := Reach(outer.x, inner.x, inner.width), Reach(outer.y, inner.y, inner.height);
      var mx, my := Reach(outer.x, middle.x, middle.width), Reach(outer.y, middle.y, middle.height);
      Quotients(dx, mx, rx);
      Quotients(dy, my, ry);
      SquareMonotone(dx / rx, mx / rx);
      SquareMonotone(dy / ry, my / ry);
    }
  }

  lemma Quotients(a: real, b: real, r: real)
    requires 0.0 <= a <= b && r > 0.0
    ensures 0.0 <= a / r <= b / r
  {
  }

  lemma ContainsTransitive(a: Body, b: Body, c: Body)
    requires Contains(a, b) && Contains(b, c)
    ensures Contains(a, c)
  {
    ContainedInBox(b, c);
    SmallerReach(a, b, c);
  }

  lemma ContainsShrinksArea(outer: Body, inner: Body)
    requires Contains(outer, inner)
    ensures inner.width < outer.width && inner.height < outer.height && Area(inner) < Area(outer)
  {
    ContainedInBox(outer, inner);
    SmallerBox(inner.width, inner.height, outer.width, outer.height);
  }

  lemma SmallerBox(w: real, h: real, w': real, h': real)
    requires 0.0 < w < w' && 0.0 < h < h'
    ensures w * h < w' * h'
  {
    assert (w' - w) * h' > 0.0;
    assert w * (h' - h) > 0.0;
  }

  lemma ContainsIrreflexive(s: Body)
    ensures !Contains(s, s)
  {
    if Contains(s, s) { ContainsShrinksArea(s, s); }
  }

  // ---------- What containment means for points

  /** The point lies strictly inside the outline. */
  predicate PointInside(outer: Body, px: real, py: real) {
    if outer.shape == Some(Round) || outer.shape == Some(Oval) then
      var u, v := (px - outer.x) / (outer.width / 2.0), (py - outer.y) / (outer.height / 2.0);
      u * u + v * v < 1.0
    else
      && outer.x - outer.width / 2.0 < px < outer.x + outer.width / 2.0
      && outer.y - outer.height / 2.0 < py < outer.y + outer.height / 2.0
  }

  /** The point lies in the bounding box, edges included. */
  predicate PointInBox(s: Body, px: real, py: real) {
    && s.x - s.width / 2.0 <= px <= s.x + s.width / 2.0
    && s.y - s.height / 2.0 <= py <= s.y + s.height / 2.0
  }

  lemma PointReach(outer: Body, px: real, py: real)
    ensures var dx, dy := AbsReal(px - outer.x), AbsReal(py - outer.y);
      PointInside(outer, px, py) <==>
        if IsRounded(outer) then InEllipse(dx, dy, outer) else dx < outer.width / 2.0 && dy < outer.height / 2.0
  {
    var rx, ry := outer.width / 2.0, outer.height / 2.0;
    SignFree(px - outer.x, rx);
    SignFree(py - outer.y, ry);
  }

  lemma SignFree(d: real, r: real)
    requires r > 0.0
    ensures (AbsReal(d) / r) * (AbsReal(d) / r) == (d / r) * (d / r)
  {
    assert (-d) / r == -(d / r);
  }

  /** The corner of the inner box that is farthest from the outer centre. */
  function Corner(outerCentre: real, innerCentre: real, innerExtent: real): real {
    if innerCentre >= outerCentre then innerCentre + innerExtent / 2.0 else innerCentre - innerExtent / 2.0
  }

  /** One shape contains another exactly if every point of the other's box lies strictly inside its outline. */
  lemma ContainsMeans(outer: Body, inner: Body)
    ensures Contains(outer, inner) <==> forall px, py :: PointInBox(inner, px, py) ==> PointInside(outer, px, py)
  {
    hide InEllipse, PointInside;
    var px, py := Corner(outer.x, inner.x, inner.width), Corner(outer.y, inner.y, inner.height);
    assert PointInBox(inner, px, py);
    PointReach(outer, px, py);
    assert AbsReal(px - outer.x) == Reach(outer.x, inner.x, inner.width);
    assert AbsReal(py - outer.y) == Reach(outer.y, inner.y, inner.height);
    if Contains(outer, inner) {
      forall qx, qy | PointInBox(inner, qx, qy) ensures PointInside(outer, qx, qy) {
        PointReach(outer, qx, qy);
        ReachBounds(outer, AbsReal(qx - outer.x), AbsReal(qy - outer.y), AbsReal(px - outer.x), AbsReal(py - outer.y));
      }
    }
  }

  lemma ReachBounds(outer: Body, a: real, b: real, c: real, d: real)
    requires 0.0 <= a <= c && 0.0 <= b <= d
    ensures InEllipse(c, d, outer) ==> InEllipse(a, b, outer)
  {
    var rx, ry := outer.width / 2.0, outer.height / 2.0;
    Quotients(a, c, rx);
    Quotients(b, d, ry);
    SquareMonotone(a / rx, c / rx);
    SquareMonotone(b / ry, d / ry);
  }
}
