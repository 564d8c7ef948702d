/** What holds of every fitted contour: the flood's geometry, the area, the moments and the quality. */
module ContourProperties {
  import opened Outcomes
  import opened Raster
  import opened Grids
  import opened Components
  import opened Contour

  // ---------- The flood

  /** The whole padding ring is outside. */
  lemma {:induction false} RingIsExterior(ink: set<int>, c: Component, imageWidth: nat, x: nat, y: nat)
    requires c.Width() > 0 && c.Height() > 0 && x < c.Width() + 2 && y < c.Height() + 2
    requires x == 0 || y == 0 || x == c.Width() + 1 || y == c.Height() + 1
    ensures Margin(ink, c, imageWidth).Connected(0, Cell(x, y, c.Width() + 2))
    decreases x + y
  {
    var g := Margin(ink, c, imageWidth);
    var stride, rows := c.Width() + 2, c.Height() + 2;
    CellAt(x, y, stride, rows);
    if x == 0 && y == 0 {
      CornerIsOpen(ink, c, imageWidth);
      g.Reflexive(0);
    } else if y == 0 || (y == c.Height() + 1 && x > 0) {
      RingIsExterior(ink, c, imageWidth, x - 1, y);
      CellAt(x - 1, y, stride, rows);
      RingStep(ink, c, imageWidth, x - 1, y, x, y);
    } else {
      RingIsExterior(ink, c, imageWidth, x, y - 1);
      CellAt(x, y - 1, stride, rows);
      RingStep(ink, c, imageWidth, x, y - 1, x, y);
    }
  }

  lemma RingStep(ink: set<int>, c: Component, imageWidth: nat, x: nat, y: nat, x': nat, y': nat)
    requires c.Width() > 0 && c.Height() > 0
    requires x < c.Width() + 2 && y < c.Height() + 2 && x' < c.Width() + 2 && y' < c.Height() + 2
    requires x == 0 || y == 0 || x == c.Width() + 1 || y == c.Height() + 1
    requires x' == 0 || y' == 0 || x' == c.Width() + 1 || y' == c.Height() + 1
    requires (x' == x + 1 && y' == y) || (x' == x && y' == y + 1)
    requires Margin(ink, c, imageWidth).Connected(0, Cell(x, y, c.Width() + 2))
    ensures Margin(ink, c, imageWidth).Connected(0, Cell(x', y', c.Width() + 2))
  {
    var g := Margin(ink, c, imageWidth);
    CellAt(x, y, c.Width() + 2, c.Height() + 2);
    CellAt(x', y', c.Width() + 2, c.Height() + 2);
    g.Extend(0, Cell(x, y, c.Width() + 2), Cell(x', y', c.Width() + 2));
  }

  // ---------- The area

  ghost function FilledCells(filled: seq<bool>, n: nat): set<int>
    requires n <= |filled|
  {
    set k | 0 <= k < n && filled[k]
  }

  lemma {:induction false} AreaCounts(filled: seq<bool>, width: nat, n: nat)
    requires width > 0 && n <= |filled|
    ensures MomentsOf(filled, width, n).area == |FilledCells(filled, n)|
  {
    if n == 0 {
      assert FilledCells(filled, 0) == {};
    } else {
      AreaCounts(filled, width, n - 1);
      assert FilledCells(filled, n) == FilledCells(filled, n - 1) + if filled[n - 1] then {n - 1} else {};
    }
  }

  /** The window cells with ink, and the inkless ones that the outside cannot reach. */
  ghost function InkCells(ink: set<int>, c: Component, imageWidth: nat): set<int>
    requires c.Width() > 0 && c.Height() > 0
  {
    set k | 0 <= k < c.Width() * c.Height() && HasInk(ink, c, imageWidth, PaddedCell(k, c.Width()))
  }

  ghost function HoleCells(ink: set<int>, c: Component, imageWidth: nat): set<int>
    requires c.Width() > 0 && c.Height() > 0
  {
    var g := Margin(ink, c, imageWidth);
    set k | 0 <= k < c.Width() * c.Height() &&
      g.Node(PaddedCell(k, c.Width())) && !g.Connected(0, PaddedCell(k, c.Width()))
  }

  /** Image pixel under window cell k. */
  function PixelUnder(c: Component, imageWidth: nat, k: int): int
    requires c.Width() > 0
  {
    Cell(Column(k, c.Width()) + c.minX, Row(k, c.Width()) + c.minY, imageWidth)
  }

  ghost function Enumerate(s: set<int>, n: nat): (q: seq<int>)
    ensures forall k :: k in q <==> 0 <= k < n && k in s
    ensures forall a, b :: 0 <= a < b < |q| ==> q[a] != q[b]
  {
    if n == 0 then []
    else
      var q := Enumerate(s, n - 1);
      assert forall a :: 0 <= a < |q| ==> q[a] in q;
      q + if n - 1 in s then [n - 1] else []
  }

  /** Window cell k, its padded cell and its pixel agree on where ink is. */
  lemma InkUnder(ink: set<int>, c: Component, imageWidth: nat, k: int)
    requires c.Width() > 0 && c.Height() > 0 && 0 <= k < c.Width() * c.Height()
    ensures HasInk(ink, c, imageWidth, PaddedCell(k, c.Width())) <==> PixelUnder(c, imageWidth, k) in ink
    ensures 0 <= PaddedCell(k, c.Width()) < (c.Width() + 2) * (c.Height() + 2)
  {
    CellOf(k, c.Width(), c.Height());
    CellAt(Column(k, c.Width()) + 1, Row(k, c.Width()) + 1, c.Width() + 2, c.Height() + 2);
  }

  lemma PixelUnderInjective(c: Component, imageWidth: nat, a: int, b: int)
    requires 0 <= c.minX <= c.maxX < imageWidth && 0 <= c.minY <= c.maxY
    requires 0 <= a < c.Width() * c.Height() && 0 <= b < c.Width() * c.Height()
    requires PixelUnder(c, imageWidth, a) == PixelUnder(c, imageWidth, b)
    ensures a == b
  {
    CellOf(a, c.Width(), c.Height());
    CellOf(b, c.Width(), c.Height());
    CellAt(Column(a, c.Width()) + c.minX, Row(a, c.Width()) + c.minY, imageWidth, c.maxY + 1);
    CellAt(Column(b, c.Width()) + c.minX, Row(b, c.Width()) + c.minY, imageWidth, c.maxY + 1);
  }

  /** Every pixel of a described component lies under a window cell. */
  lemma PixelHasCell(g: Grid, c: Component, root: int, pixel: int) returns (k: int)
    requires g.Valid() && Describes(c, g, root, c.id) && pixel in g.Component(root)
    ensures c.Width() > 0 && c.Height() > 0
    ensures 0 <= k < c.Width() * c.Height() && PixelUnder(c, g.width, k) == pixel
  {
    g.ConnectedNodes(root, pixel);
    CellOf(pixel, g.width, g.height);
    var x, y := Column(pixel, g.width), Row(pixel, g.width);
    assert x in Columns(g.Component(root), g.width) && y in Rows(g.Component(root), g.width);
    k := Cell(x - c.minX, y - c.minY, c.Width());
    CellAt(x - c.minX, y - c.minY, c.Width(), c.Height());
  }

  lemma DescribedInImage(g: Grid, c: Component, root: int)
    requires g.Valid() && Describes(c, g, root, c.id)
    ensures InImage(c, g.width, |g.open|)
  {
    var s := g.Component(root);
    forall j | j in s ensures 0 <= Column(j, g.width) < g.width && 0 <= Row(j, g.width) < g.height {
      g.ConnectedNodes(root, j);
      CellOf(j, g.width, g.height);
    }
    CellAt(c.maxX, c.maxY, g.width, g.height);
  }

  /** There is one window cell for each pixel of the component. */
  lemma InkCellsCount(g: Grid, c: Component, root: int)
    requires g.Valid() && Describes(c, g, root, c.id) && c.Width() > 0 && c.Height() > 0
    ensures |InkCells(g.Component(root), c, g.width)| == c.size
  {
    hide HasInk, IsLeast, IsGreatest, Cell;
    var ink := g.Component(root);
    var cells := InkCells(ink, c, g.width);
    DescribedInImage(g, c, root);
    var q := Enumerate(cells, c.Width() * c.Height());
    var r := seq(|q|, i requires 0 <= i < |q| => PixelUnder(c, g.width, q[i]));
    assert forall i :: 0 <= i < |q| ==> q[i] in q;
    CellsArePixels(g, c, root, q, r);
    DistinctSize(q);
    DistinctSize(r);
    assert cells == set k | k in q;
    assert ink == set pixel | pixel in r;
  }

  lemma CellsArePixels(g: Grid, c: Component, root: int, q: seq<int>, r: seq<int>)
    requires g.Valid() && Describes(c, g, root, c.id) && c.Width() > 0 && c.Height() > 0
    requires forall k :: k in q <==> k in InkCells(g.Component(root), c, g.width)
    requires forall a, b :: 0 <= a < b < |q| ==> q[a] != q[b]
    requires |r| == |q| && forall i :: 0 <= i < |q| ==> q[i] in q && r[i] == PixelUnder(c, g.width, q[i])
    ensures forall a, b :: 0 <= a < b < |r| ==> r[a] != r[b]
    ensures forall pixel :: pixel in r <==> pixel in g.Component(root)
  {
    hide Describes;
    var ink := g.Component(root);
    DescribedInImage(g, c, root);
    forall a, b | 0 <= a < b < |r| ensures r[a] != r[b] {
      if r[a] == r[b] { PixelUnderInjective(c, g.width, q[a], q[b]); }
    }
    forall pixel | pixel in ink ensures pixel in r {
      var k := PixelHasCell(g, c, root, pixel);
      InkUnder(ink, c, g.width, k);
      assert k in q;
    }
    forall i | 0 <= i < |r| ensures r[i] in ink { InkUnder(ink, c, g.width, q[i]); }
  }

  /** The area that is fitted is the component's pixels and the holes that it encloses. */
  lemma AreaIsSizePlusHoles(g: Grid, c: Component, root: int)
    requires g.Valid() && Describes(c, g, root, c.id) && c.Width() > 0 && c.Height() > 0
    ensures var ink := g.Component(root);
      var filled := Silhouette(ink, c, g.width);
      MomentsOf(filled, c.Width(), |filled|).area == c.size + |HoleCells(ink, c, g.width)|
  {
    var ink := g.Component(root);
    var filled := Silhouette(ink, c, g.width);
    AreaCounts(filled, c.Width(), |filled|);
    InkCellsCount(g, c, root);
    forall k | 0 <= k < |filled|
      ensures filled[k] <==> k in InkCells(ink, c, g.width) || k in HoleCells(ink, c, g.width)
      ensures !(k in InkCells(ink, c, g.width) && k in HoleCells(ink, c, g.width))
    {
      InkUnder(ink, c, g.width, k);
      FilledOrOpen(ink, c, g.width, k);
    }
    assert FilledCells(filled, |filled|) == InkCells(ink, c, g.width) + HoleCells(ink, c, g.width);
    assert InkCells(ink, c, g.width) !! HoleCells(ink, c, g.width);
  }

  lemma FilledOrOpen(ink: set<int>, c: Component, imageWidth: nat, k: int)
    requires c.Width() > 0 && c.Height() > 0 && 0 <= k < c.Width() * c.Height()
    ensures var g, p := Margin(ink, c, imageWidth), PaddedCell(k, c.Width());
      && (HasInk(ink, c, imageWidth, p) <==> !g.Node(p)) && (g.Connected(0, p) ==> g.Node(p))
  {
    var g, p := Margin(ink, c, imageWidth), PaddedCell(k, c.Width());
    InkUnder(ink, c, imageWidth, k);
    if g.Connected(0, p) { g.ConnectedNodes(0, p); }
  }

  // ---------- The moments and the quality

  /** The sum of squared deviations from v, by its expansion. */
  ghost function Spread(sum: real, sumSquares: real, area: int, v: real): real {
    sumSquares - 2.0 * (v * sum) + area as real * Square(v)
  }

  lemma SpreadAdd(sum: real, sumSquares: real, area: int, v: real, u: real)
    ensures Spread(sum + u, sumSquares + Square(u), area + 1, v) == Spread(sum, sumSquares, area, v) + Square(u - v)
  {
  }

  lemma SquareNonNegative(v: real)
    ensures Square(v) >= 0.0
  {
  }

  /** Deviations from any point v add up to a non-negative sum. */
  lemma {:induction false} DeviationsNonNegative(filled: seq<bool>, width: nat, n: nat, v: real)
    requires width > 0 && n <= |filled|
    ensures var m := MomentsOf(filled, width, n);
      Spread(m.sumX, m.sumXX, m.area, v) >= 0.0 && Spread(m.sumY, m.sumYY, m.area, v) >= 0.0
  {
    if n == 0 {
      assert Spread(0.0, 0.0, 0, v) == 0.0;
    } else {
      hide Spread, Square, Middle;
      var m := MomentsOf(filled, width, n - 1);
      DeviationsNonNegative(filled, width, n - 1, v);
      var x, y := Middle(Column(n - 1, width)), Middle(Row(n - 1, width));
      SpreadAdd(m.sumX, m.sumXX, m.area, v, x);
      SpreadAdd(m.sumY, m.sumYY, m.area, v, y);
      SquareNonNegative(x - v);
      SquareNonNegative(y - v);
    }
  }

  /** The spread around the mean is the area times the variance. */
  lemma VarianceFromSpread(sum: real, sumSquares: real, area: int)
    requires area > 0 && Spread(sum, sumSquares, area, sum / area as real) >= 0.0
    ensures Variance(sum, sumSquares, area) >= 0.0
  {
    var n := area as real;
    var v := sum / n;
    assert v * sum == n * Square(v) by { assert sum == v * n; }
    assert sumSquares >= n * Square(v);
    assert sumSquares / n >= Square(v);
  }

  /** Both second central moments are non-negative, so clamping them at zero never changes them. */
  lemma MomentsNonNegative(filled: seq<bool>, width: nat, n: nat)
    requires width > 0 && n <= |filled|
    ensures var m := MomentsOf(filled, width, n);
      Variance(m.sumX, m.sumXX, m.area) >= 0.0 && Variance(m.sumY, m.sumYY, m.area) >= 0.0
  {
    var m := MomentsOf(filled, width, n);
    if m.area == 0 {
      EmptyMoments(filled, width, n);
      assert Variance(0.0, 0.0, 0) == 0.0;
    } else {
      hide Spread, Variance, MomentsOf;
      DeviationsNonNegative(filled, width, n, m.sumX / m.area as real);
      DeviationsNonNegative(filled, width, n, m.sumY / m.area as real);
      VarianceFromSpread(m.sumX, m.sumXX, m.area);
      VarianceFromSpread(m.sumY, m.sumYY, m.area);
    }
  }

  lemma EmptyMoments(filled: seq<bool>, width: nat, n: nat)
    requires width > 0 && n <= |filled|
    ensures MomentsOf(filled, width, n).area == 0 ==> MomentsOf(filled, width, n) == Moments(0, 0.0, 0.0, 0.0, 0.0)
  {
  }

  /** For any exact root of the clamped second moment, the square of the source's radius is RadiusSquared. */
  lemma RadiusIsExact(secondMoment: real, root: real)
    requires root >= 0.0 && root * root == MaxReal(0.0, secondMoment)
    ensures var radius := MaxReal(1.0, 2.0 * root); radius * radius == RadiusSquared(secondMoment)
  {
    assert (2.0 * root) * (2.0 * root) == 4.0 * (root * root);
    if 2.0 * root < 1.0 {
      TimesPositive(1.0 - 2.0 * root, 1.0 + 2.0 * root);
    } else {
      assert (2.0 * root - 1.0) * (2.0 * root + 1.0) >= 0.0;
    }
  }

  lemma RatioBounds(o: Overlap)
    requires 0 <= o.intersection <= o.union
    ensures 0.0 <= Ratio(o) <= 1.0
  {
  }

  /** Each of the three fits, and the quality, lies between 0 and 1. */
  lemma FitsWithinUnit(filled: seq<bool>, width: nat, height: nat)
    requires width > 0 && height > 0 && |filled| == width * height
    ensures 0.0 <= RectangleFit(filled, width, height) <= 1.0
    ensures 0.0 <= EllipseFit(filled, width, height) <= 1.0
    ensures 0.0 <= FitOf(filled, width, height).quality <= 1.0
  {
    CellAt(0, 0, width, height);
    var m := MomentsOf(filled, width, |filled|);
    RatioBounds(OverlapOf(filled, width, BoxEllipse(width, height), |filled|));
    RatioBounds(OverlapOf(filled, width, MomentEllipse(m), |filled|));
    assert 0 <= m.area <= width * height;
    FractionBounds(m.area, width * height);
  }

  lemma FractionBounds(a: int, n: int)
    requires 0 <= a <= n && n > 0
    ensures 0.0 <= a as real / n as real <= 1.0
  {
  }

  /** A component that fills its bounding box is never taken for a round or oval one. */
  lemma SolidIsNotRound(filled: seq<bool>, width: nat, height: nat)
    requires width > 0 && height > 0 && |filled| == width * height
    requires forall k :: 0 <= k < |filled| ==> filled[k]
    ensures FitOf(filled, width, height).quality == 1.0
    ensures FitOf(filled, width, height).shape in {None, Some(Rectangle)}
  {
    hide MomentsOf, EllipseFit, RectangleFit;
    SolidFit(filled, width, height);
    FitsWithinUnit(filled, width, height);
  }

  lemma SolidFit(filled: seq<bool>, width: nat, height: nat)
    requires width > 0 && height > 0 && |filled| == width * height
    requires forall k :: 0 <= k < |filled| ==> filled[k]
    ensures RectangleFit(filled, width, height) == 1.0
  {
    AreaCounts(filled, width, |filled|);
    assert FilledCells(filled, |filled|) == Below(|filled|);
    CellAt(0, 0, width, height);
    hide MomentsOf;
    WholeFraction(MomentsOf(filled, width, |filled|).area, width * height);
  }

  lemma WholeFraction(a: int, n: int)
    requires a == n && n > 0
    ensures a as real / n as real == 1.0
  {
  }
}
