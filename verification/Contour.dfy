/**
  Contour fitting (raster-components.ts, fitContour): a component is painted into a mask with a one-cell
  margin, the outside is flooded from the corner, and what the flood cannot reach is the filled silhouette.
  Numbers are exact reals. Both radii are only ever used squared, so no square root is taken; RadiusIsExact
  says why that is the same.
 */
module Contour {
  import opened Outcomes
  import opened Numbers
  import opened Raster
  import opened Grids
  import opened Components

  datatype Fit = Fit(shape: Option<Shape>, quality: real)

  datatype Moments = Moments(area: int, sumX: real, sumY: real, sumXX: real, sumYY: real)

  datatype Overlap = Overlap(intersection: int, union: int)

  datatype Ellipse = Ellipse(centerX: real, centerY: real, radiusXSquared: real, radiusYSquared: real) {

    predicate Valid() {
      radiusXSquared > 0.0 && radiusYSquared > 0.0
    }

    predicate Contains(x: int, y: int)
      requires Valid()
    {
      Square(Middle(x) - centerX) / radiusXSquared + Square(Middle(y) - centerY) / radiusYSquared <= 1.0
    }
  }

  // ---------- The silhouette

  /** The bounding box is not empty and lies inside the image. */
  ghost predicate InImage(c: Component, imageWidth: nat, size: int) {
    0 <= c.minX <= c.maxX < imageWidth && 0 <= c.minY <= c.maxY && Cell(c.maxX, c.maxY, imageWidth) < size
  }

  /** Padded mask cell p lies over a pixel of the component; the margin lies over nothing. */
  ghost predicate HasInk(ink: set<int>, c: Component, imageWidth: nat, p: int)
    requires c.Width() > 0
  {
    var x, y := Column(p, c.Width() + 2) - 1, Row(p, c.Width() + 2) - 1;
    0 <= x < c.Width() && 0 <= y < c.Height() && Cell(x + c.minX, y + c.minY, imageWidth) in ink
  }

  /** The padded mask as a 4-connected grid whose open cells are the ones without ink. */
  ghost function Margin(ink: set<int>, c: Component, imageWidth: nat): (g: Grid)
    requires c.Width() > 0 && c.Height() > 0
    ensures g.Valid() && g.width == c.Width() + 2 && g.height == c.Height() + 2 && !g.diagonal
    ensures forall p :: 0 <= p < |g.open| ==> g.open[p] == !HasInk(ink, c, imageWidth, p)
  {
    var stride, rows := c.Width() + 2, c.Height() + 2;
    Grid(stride, rows, seq(stride * rows, p requires 0 <= p < stride * rows => !HasInk(ink, c, imageWidth, p)), false)
  }

  /** Window cell k seen as a padded cell. */
  function PaddedCell(k: int, width: nat): int
    requires width > 0
  {
    Cell(Column(k, width) + 1, Row(k, width) + 1, width + 2)
  }

  /** The window cells that no path of inkless cells joins to the corner: the ink and the holes it encloses. */
  ghost function Silhouette(ink: set<int>, c: Component, imageWidth: nat): (filled: seq<bool>)
    requires c.Width() > 0 && c.Height() > 0
    ensures |filled| == c.Width() * c.Height()
    ensures forall k :: 0 <= k < |filled| ==>
      filled[k] == !Margin(ink, c, imageWidth).Connected(0, PaddedCell(k, c.Width()))
  {
    seq(c.Width() * c.Height(), k requires 0 <= k < c.Width() * c.Height() =>
      !Margin(ink, c, imageWidth).Connected(0, PaddedCell(k, c.Width())))
  }

  // ---------- The fit, from the silhouette alone

  function Middle(x: int): real {
    x as real + 0.5
  }

  function Times(a: real, b: real): real {
    a * b
  }

  lemma TimesPositive(a: real, b: real)
    requires a > 0.0 && b > 0.0
    ensures Times(a, b) > 0.0
  {
  }

  function Square(v: real): real {
    Times(v, v)
  }

  function AddCell(m: Moments, x: int, y: int): Moments {
    Moments(m.area + 1, m.sumX + Middle(x), m.sumY + Middle(y), m.sumXX + Square(Middle(x)),
            m.sumYY + Square(Middle(y)))
  }

  function MomentsOf(filled: seq<bool>, width: nat, n: nat): (m: Moments)
    requires width > 0 && n <= |filled|
    ensures 0 <= m.area <= n
  {
    if n == 0 then Moments(0, 0.0, 0.0, 0.0, 0.0)
    else
      var m := MomentsOf(filled, width, n - 1);
      if filled[n - 1] then AddCell(m, Column(n - 1, width), Row(n - 1, width)) else m
  }

  function AddOverlap(o: Overlap, a: bool, b: bool): Overlap {
    Overlap(if a && b then o.intersection + 1 else o.intersection, if a || b then o.union + 1 else o.union)
  }

  function OverlapOf(filled: seq<bool>, width: nat, e: Ellipse, n: nat): (o: Overlap)
    requires width > 0 && n <= |filled| && e.Valid()
    ensures 0 <= o.intersection <= o.union <= n
  {
    if n == 0 then Overlap(0, 0)
    else AddOverlap(OverlapOf(filled, width, e, n - 1), filled[n - 1],
                    e.Contains(Column(n - 1, width), Row(n - 1, width)))
  }

  function RadiusSquared(secondMoment: real): (r: real)
    ensures r >= 1.0
  {
    MaxReal(1.0, 4.0 * MaxReal(0.0, secondMoment))
  }

  function Variance(sum: real, sumSquares: real, area: int): real {
    sumSquares / Max(1, area) as real - Square(sum / Max(1, area) as real)
  }

  function MomentEllipse(m: Moments): (e: Ellipse)
    ensures e.Valid()
  {
    var n := Max(1, m.area) as real;
    Ellipse(m.sumX / n, m.sumY / n, RadiusSquared(Variance(m.sumX, m.sumXX, m.area)),
            RadiusSquared(Variance(m.sumY, m.sumYY, m.area)))
  }

  function BoxEllipse(width: nat, height: nat): (e: Ellipse)
    requires width > 0 && height > 0
    ensures e.Valid()
  {
    var rx, ry := width as real / 2.0, height as real / 2.0;
    TimesPositive(rx, rx);
    TimesPositive(ry, ry);
    Ellipse(rx, ry, Square(rx), Square(ry))
  }

  function Ratio(o: Overlap): real {
    o.intersection as real / Max(1, o.union) as real
  }

  function Classify(rectangleFit: real, ellipseFit: real, width: nat, height: nat): Fit
    requires height > 0
  {
    var quality := MaxReal(rectangleFit, ellipseFit);
    var aspect := width as real / height as real;
    if quality < 0.8 || AbsReal(rectangleFit - ellipseFit) < 0.06 then Fit(None, quality)
    else if rectangleFit > ellipseFit then Fit(Some(Rectangle), quality)
    else Fit(Some(if 0.85 <= aspect <= 1.18 then Round else Oval), quality)
  }

  function RectangleFit(filled: seq<bool>, width: nat, height: nat): real
    requires width > 0 && height > 0 && |filled| == width * height
  {
    CellAt(0, 0, width, height);
    MomentsOf(filled, width, |filled|).area as real / (width * height) as real
  }

  function EllipseFit(filled: seq<bool>, width: nat, height: nat): real
    requires width > 0 && height > 0 && |filled| == width * height
  {
    var m := MomentsOf(filled, width, |filled|);
    MaxReal(Ratio(OverlapOf(filled, width, BoxEllipse(width, height), |filled|)),
            Ratio(OverlapOf(filled, width, MomentEllipse(m), |filled|)))
  }

  function FitOf(filled: seq<bool>, width: nat, height: nat): Fit
    requires width > 0 && height > 0 && |filled| == width * height
  {
    Classify(RectangleFit(filled, width, height), EllipseFit(filled, width, height), width, height)
  }

  // ---------- The algorithm

  ghost predicate Earlier(p: int, stride: nat, x: int, y: int)
    requires stride > 0
  {
    Row(p, stride) - 1 < y || (Row(p, stride) - 1 == y && Column(p, stride) - 1 < x)
  }

  ghost function InkOf(labels: seq<int>, id: int): set<int> {
    set p | 0 <= p < |labels| && labels[p] == id
  }

  /** The mask when the window cells before (x, y) have been painted. */
  ghost predicate Painting(mask: seq<int>, ink: set<int>, c: Component, imageWidth: nat, x: int, y: int)
    requires c.Width() > 0
  {
    forall p :: 0 <= p < |mask| ==>
      mask[p] == if HasInk(ink, c, imageWidth, p) && Earlier(p, c.Width() + 2, x, y) then 1 else 0
  }

  lemma PaintCell(mask: seq<int>, ink: set<int>, c: Component, imageWidth: nat, x: int, y: int, dark: bool)
    requires 0 <= x < c.Width() && 0 <= y < c.Height() && |mask| == (c.Width() + 2) * (c.Height() + 2)
    requires Painting(mask, ink, c, imageWidth, x, y)
    requires dark == (Cell(x + c.minX, y + c.minY, imageWidth) in ink)
    ensures var p := Cell(x + 1, y + 1, c.Width() + 2);
      0 <= p < |mask| && Painting(if dark then mask[p := 1] else mask, ink, c, imageWidth, x + 1, y)
  {
    var stride := c.Width() + 2;
    var p := Cell(x + 1, y + 1, stride);
    CellAt(x + 1, y + 1, stride, c.Height() + 2);
    forall k | 0 <= k < |mask| && k != p && HasInk(ink, c, imageWidth, k)
      ensures Earlier(k, stride, x + 1, y) <==> Earlier(k, stride, x, y)
    {
      CellOf(k, stride, c.Height() + 2);
    }
  }

  lemma PaintOrder(mask: seq<int>, ink: set<int>, c: Component, imageWidth: nat)
    requires c.Width() > 0 && c.Height() > 0
    ensures (forall p :: 0 <= p < |mask| ==> mask[p] == 0) ==> Painting(mask, ink, c, imageWidth, 0, 0)
    ensures forall y :: Painting(mask, ink, c, imageWidth, c.Width(), y) ==>
      Painting(mask, ink, c, imageWidth, 0, y + 1)
    ensures Painting(mask, ink, c, imageWidth, 0, c.Height()) ==>
      forall p :: 0 <= p < |mask| ==> mask[p] == if HasInk(ink, c, imageWidth, p) then 1 else 0
  {
  }

  method PaintMask(c: Component, labels: seq<int>, imageWidth: nat) returns (mask: array<int>)
    requires InImage(c, imageWidth, |labels|)
    ensures fresh(mask) && mask.Length == (c.Width() + 2) * (c.Height() + 2)
    ensures forall p :: 0 <= p < mask.Length ==>
      mask[p] == if HasInk(InkOf(labels, c.id), c, imageWidth, p) then 1 else 0
  {
    hide Painting, HasInk;
    var width, height, stride := c.Width(), c.Height(), c.Width() + 2;
    ghost var ink := InkOf(labels, c.id);
    mask := new int[stride * (height + 2)](_ => 0);
    PaintOrder(mask[..], ink, c, imageWidth);
    for y := 0 to height
      invariant Painting(mask[..], ink, c, imageWidth, 0, y)
    {
      for x := 0 to width
        invariant Painting(mask[..], ink, c, imageWidth, x, y)
      {
        var pixel := Cell(x + c.minX, y + c.minY, imageWidth);
        PixelInImage(c, imageWidth, |labels|, x, y);
        ghost var before := mask[..];
        PaintCell(before, ink, c, imageWidth, x, y, labels[pixel] == c.id);
        if labels[pixel] == c.id {
          mask[Cell(x + 1, y + 1, stride)] := 1;
          assert mask[..] == before[Cell(x + 1, y + 1, stride) := 1];
        }
      }
      PaintOrder(mask[..], ink, c, imageWidth);
    }
    PaintOrder(mask[..], ink, c, imageWidth);
  }

  lemma PixelInImage(c: Component, imageWidth: nat, size: int, x: int, y: int)
    requires InImage(c, imageWidth, size) && 0 <= x < c.Width() && 0 <= y < c.Height()
    ensures 0 <= Cell(x + c.minX, y + c.minY, imageWidth) < size
  {
    assert 0 <= (y + c.minY) * imageWidth <= c.maxY * imageWidth;
  }

  /** The mask in mid-flood: cells in the queue are marked 2, all others are as the painting left them. */
  ghost predicate Draining(g: Grid, q: seq<int>, head: nat, painted: seq<int>, mask: seq<int>)
    requires g.Valid()
  {
    && g.Wave(0, q, head) && |mask| == |painted| == |g.open|
    && (forall p :: 0 <= p < |mask| ==> mask[p] == if p in q then 2 else painted[p])
    && (forall p :: 0 <= p < |mask| ==> painted[p] == if g.open[p] then 0 else 1)
  }

  lemma DrainPush(g: Grid, q: seq<int>, head: nat, painted: seq<int>, mask: seq<int>, current: int, next: int)
    requires g.Valid() && Draining(g, q, head, painted, mask)
    requires current in q && 0 <= next < |mask| && (g.Node(next) ==> g.Step(current, next))
    ensures mask[next] == 0 ==> Draining(g, q + [next], head, painted, mask[next := 2]) && |q| < |g.open|
    ensures g.Node(next) && mask[next] != 0 ==> next in q
  {
    if mask[next] == 0 {
      g.WavePush(0, q, head, current, next);
      g.WaveFits(0, q + [next], head);
    }
  }

  lemma DrainAdvance(g: Grid, q: seq<int>, head: nat, painted: seq<int>, mask: seq<int>)
    requires g.Valid() && Draining(g, q, head, painted, mask) && head < |q|
    requires forall j :: g.Step(q[head], j) ==> j in q
    ensures Draining(g, q, head + 1, painted, mask)
  {
  }

  lemma DrainNodes(g: Grid, q: seq<int>, head: nat, painted: seq<int>, mask: seq<int>)
    requires g.Valid() && Draining(g, q, head, painted, mask)
    ensures |q| <= |g.open| && forall k :: 0 <= k < |q| ==> g.Node(q[k])
  {
    g.WaveFits(0, q, head);
    forall k | 0 <= k < |q| ensures g.Node(q[k]) { g.ConnectedNodes(0, q[k]); }
  }

  /** When the flood has run dry, it has marked exactly what the corner reaches, and no ink. */
  lemma DrainEnds(g: Grid, q: seq<int>, painted: seq<int>, mask: seq<int>)
    requires g.Valid() && Draining(g, q, |q|, painted, mask)
    ensures forall p :: 0 <= p < |mask| ==> (mask[p] == 2 <==> g.Connected(0, p))
    ensures forall p :: 0 <= p < |mask| && painted[p] == 1 ==> mask[p] == 1
  {
    g.WaveEnds(0, q);
    forall p | 0 <= p < |mask|
      ensures p in q <==> g.Connected(0, p)
    {
      assert p in g.Component(0) <==> g.Connected(0, p);
    }
    forall p | 0 <= p < |mask| && p in q ensures g.Node(p) { g.ConnectedNodes(0, p); }
  }

  /** The four cells around a cell, -1 where the mask ends. */
  function Around(index: int, stride: nat, rows: nat): (nexts: seq<int>)
    requires stride > 0
    ensures |nexts| == 4
  {
    var x, y := Column(index, stride), Row(index, stride);
    [if x > 0 then index - 1 else -1,
     if x < stride - 1 then index + 1 else -1,
     if y > 0 then index - stride else -1,
     if y < rows - 1 then index + stride else -1]
  }

  lemma AroundIsStep(g: Grid, index: int)
    requires g.Valid() && !g.diagonal && g.Node(index)
    ensures var nexts := Around(index, g.width, g.height);
      && (forall k :: 0 <= k < 4 && nexts[k] >= 0 ==>
            nexts[k] < |g.open| && (g.Node(nexts[k]) ==> g.Step(index, nexts[k])))
      && (forall j :: g.Step(index, j) ==> j == index || j in nexts)
  {
    hide Around, Column, Row;
    var nexts := Around(index, g.width, g.height);
    forall k | 0 <= k < 4 && nexts[k] >= 0
      ensures nexts[k] < |g.open| && (g.Node(nexts[k]) ==> g.Step(index, nexts[k]))
    {
      AroundIsNear(g, index, k);
    }
    forall j | g.Step(index, j) ensures j == index || j in nexts { StepIsAround(g, index, j); }
  }

  lemma AroundIsNear(g: Grid, index: int, k: nat)
    requires g.Valid() && !g.diagonal && g.Node(index) && k < 4
    ensures var next := Around(index, g.width, g.height)[k];
      next >= 0 ==> next < |g.open| && (g.Node(next) ==> g.Step(index, next))
  {
    hide Column, Row, Cell;
    var stride, rows := g.width, g.height;
    CellOf(index, stride, rows);
    var x, y := Column(index, stride), Row(index, stride);
    RowsApart(x, y, stride);
    if k == 0 {
      if x > 0 { CellAt(x - 1, y, stride, rows); }
    } else if k == 1 {
      if x < stride - 1 { CellAt(x + 1, y, stride, rows); }
    } else if k == 2 {
      if y > 0 { CellAt(x, y - 1, stride, rows); }
    } else {
      if y < rows - 1 { CellAt(x, y + 1, stride, rows); }
    }
  }

  lemma StepIsAround(g: Grid, index: int, j: int)
    requires g.Valid() && !g.diagonal && g.Node(index) && g.Step(index, j)
    ensures j == index || j in Around(index, g.width, g.height)
  {
    hide Column, Row, Cell;
    var stride, rows := g.width, g.height;
    var x, y, nexts := Column(index, stride), Row(index, stride), Around(index, g.width, g.height);
    CellOf(index, stride, rows);
    CellOf(j, stride, rows);
    RowsApart(x, y, stride);
    assert j == nexts[0] || j == nexts[1] || j == nexts[2] || j == nexts[3] || j == index;
  }

  lemma RowsApart(x: int, y: int, stride: nat)
    ensures Cell(x, y - 1, stride) == Cell(x, y, stride) - stride
    ensures Cell(x, y + 1, stride) == Cell(x, y, stride) + stride
    ensures Cell(x - 1, y, stride) == Cell(x, y, stride) - 1 && Cell(x + 1, y, stride) == Cell(x, y, stride) + 1
  {
  }

  method FloodExterior(mask: array<int>, ghost g: Grid, stride: nat, rows: nat)
    requires g.Valid() && !g.diagonal && g.width == stride && g.height == rows
    requires mask.Length == |g.open| && g.Node(0)
    requires forall p :: 0 <= p < mask.Length ==> mask[p] == if g.open[p] then 0 else 1
    modifies mask
    ensures forall p :: 0 <= p < mask.Length ==> (mask[p] == 2 <==> g.Connected(0, p))
    ensures forall p :: 0 <= p < mask.Length && old(mask[p]) == 1 ==> mask[p] == 1
  {
    hide Draining, Grid.Near;
    ghost var painted := mask[..];
    var queue := new int[mask.Length](_ => 0);
    var head, tail := 0, 1;
    queue[0] := 0;
    mask[0] := 2;
    DrainStarts(g, painted, queue[..1], mask[..]);
    while head < tail
      invariant head <= tail <= queue.Length
      invariant Draining(g, queue[..tail], head, painted, mask[..])
      decreases queue.Length - head
    {
      var index := queue[head];
      DrainNodes(g, queue[..tail], head, painted, mask[..]);
      assert g.Node(queue[..tail][head]);
      tail := FloodAround(mask, queue, index, head, tail, stride, rows, g, painted);
      assert queue[..tail][head] == index;
      DrainAdvance(g, queue[..tail], head, painted, mask[..]);
      head := head + 1;
    }
    DrainEnds(g, queue[..tail], painted, mask[..]);
  }

  lemma DrainStarts(g: Grid, painted: seq<int>, q: seq<int>, mask: seq<int>)
    requires g.Valid() && g.Node(0) && |painted| == |g.open| && q == [0] && mask == painted[0 := 2]
    requires forall p :: 0 <= p < |painted| ==> painted[p] == if g.open[p] then 0 else 1
    ensures Draining(g, q, 0, painted, mask)
  {
    g.WaveStarts(0);
  }

  method FloodAround(mask: array<int>, queue: array<int>, index: int, ghost head: nat, tail: nat,
                     stride: nat, rows: nat, ghost g: Grid, ghost painted: seq<int>)
    returns (newTail: nat)
    requires g.Valid() && !g.diagonal && g.width == stride && g.height == rows && g.Node(index)
    requires mask != queue && mask.Length == queue.Length == |g.open|
    requires head < tail <= queue.Length && index == queue[head]
    requires Draining(g, queue[..tail], head, painted, mask[..])
    modifies mask, queue
    ensures tail <= newTail <= queue.Length && queue[head] == index
    ensures Draining(g, queue[..newTail], head, painted, mask[..])
    ensures forall j :: g.Step(index, j) ==> j in queue[..newTail]
  {
    hide Draining, Around, Grid.Near;
    var nexts := Around(index, stride, rows);
    AroundIsStep(g, index);
    newTail := tail;
    for k := 0 to 4
      invariant tail <= newTail <= queue.Length && queue[head] == index
      invariant Draining(g, queue[..newTail], head, painted, mask[..])
      invariant forall n :: 0 <= n < k && nexts[n] >= 0 && g.Node(nexts[n]) ==> nexts[n] in queue[..newTail]
    {
      var next := nexts[k];
      if next >= 0 {
        ghost var q, before := queue[..newTail], mask[..];
        assert q[head] == index;
        DrainPush(g, q, head, painted, before, index, next);
        if mask[next] == 0 {
          mask[next] := 2;
          queue[newTail] := next;
          newTail := newTail + 1;
          assert queue[..newTail] == q + [next];
          assert mask[..] == before[next := 2];
        }
        assert forall j :: j in q ==> j in queue[..newTail];
      }
    }
    assert queue[..newTail][head] == index;
  }

  /** The flooded mask shows the silhouette: a window cell is filled iff it was not marked 2. */
  ghost predicate Shows(mask: seq<int>, filled: seq<bool>, width: nat, height: nat) {
    && width > 0 && height > 0 && |filled| == width * height && |mask| == (width + 2) * (height + 2)
    && forall k :: 0 <= k < |filled| ==>
        0 <= PaddedCell(k, width) < |mask| && filled[k] == (mask[PaddedCell(k, width)] != 2)
  }

  lemma WindowCell(mask: seq<int>, filled: seq<bool>, width: nat, height: nat, x: int, y: int)
    requires Shows(mask, filled, width, height) && 0 <= x < width && 0 <= y < height
    ensures var k := Cell(x, y, width);
      0 <= k < |filled| && Column(k, width) == x && Row(k, width) == y && Cell(x + 1, y, width) == k + 1
    ensures var p := Cell(x + 1, y + 1, width + 2);
      0 <= p < |mask| && filled[Cell(x, y, width)] == (mask[p] != 2)
  {
    CellAt(x, y, width, height);
    CellOrder(x, y, width);
    assert PaddedCell(Cell(x, y, width), width) == Cell(x + 1, y + 1, width + 2);
  }

  lemma ShowsSize(mask: seq<int>, filled: seq<bool>, width: nat, height: nat)
    requires Shows(mask, filled, width, height)
    ensures width > 0 && height > 0 && |filled| == width * height
  {
  }

  method MeasureMoments(mask: seq<int>, width: nat, height: nat, ghost filled: seq<bool>) returns (m: Moments)
    requires Shows(mask, filled, width, height)
    ensures m == MomentsOf(filled, width, |filled|)
  {
    hide Shows, Cell, AddCell;
    m := Moments(0, 0.0, 0.0, 0.0, 0.0);
    ShowsSize(mask, filled, width, height);
    CellOrder(0, 0, width);
    for y := 0 to height
      invariant 0 <= Cell(0, y, width) <= |filled| && m == MomentsOf(filled, width, Cell(0, y, width))
    {
      for x := 0 to width
        invariant 0 <= Cell(x, y, width) <= |filled| && m == MomentsOf(filled, width, Cell(x, y, width))
      {
        WindowCell(mask, filled, width, height, x, y);
        if mask[Cell(x + 1, y + 1, width + 2)] != 2 {
          m := AddCell(m, x, y);
        }
      }
      CellOrder(0, y, width);
    }
    CellOrder(0, height, width);
  }

  method CompareEllipses(mask: seq<int>, width: nat, height: nat, box: Ellipse, moment: Ellipse,
                         ghost filled: seq<bool>)
    returns (inBox: Overlap, inMoment: Overlap)
    requires Shows(mask, filled, width, height) && box.Valid() && moment.Valid()
    ensures inBox == OverlapOf(filled, width, box, |filled|)
    ensures inMoment == OverlapOf(filled, width, moment, |filled|)
  {
    hide Shows, Cell, AddOverlap, Ellipse.Contains;
    inBox, inMoment := Overlap(0, 0), Overlap(0, 0);
    ShowsSize(mask, filled, width, height);
    CellOrder(0, 0, width);
    for y := 0 to height
      invariant 0 <= Cell(0, y, width) <= |filled|
      invariant inBox == OverlapOf(filled, width, box, Cell(0, y, width))
      invariant inMoment == OverlapOf(filled, width, moment, Cell(0, y, width))
    {
      for x := 0 to width
        invariant 0 <= Cell(x, y, width) <= |filled|
        invariant inBox == OverlapOf(filled, width, box, Cell(x, y, width))
        invariant inMoment == OverlapOf(filled, width, moment, Cell(x, y, width))
      {
        WindowCell(mask, filled, width, height, x, y);
        var isFilled := mask[Cell(x + 1, y + 1, width + 2)] != 2;
        inBox := AddOverlap(inBox, isFilled, box.Contains(x, y));
        inMoment := AddOverlap(inMoment, isFilled, moment.Contains(x, y));
      }
      CellOrder(0, y, width);
    }
    CellOrder(0, height, width);
  }

  lemma CornerIsOpen(ink: set<int>, c: Component, imageWidth: nat)
    requires c.Width() > 0 && c.Height() > 0
    ensures Margin(ink, c, imageWidth).Node(0)
  {
    CellAt(0, 0, c.Width() + 2, c.Height() + 2);
  }

  lemma SilhouetteShown(ink: set<int>, c: Component, imageWidth: nat, mask: seq<int>)
    requires c.Width() > 0 && c.Height() > 0 && |mask| == (c.Width() + 2) * (c.Height() + 2)
    requires forall p :: 0 <= p < |mask| ==> (mask[p] == 2 <==> Margin(ink, c, imageWidth).Connected(0, p))
    ensures Shows(mask, Silhouette(ink, c, imageWidth), c.Width(), c.Height())
  {
    forall k | 0 <= k < c.Width() * c.Height() ensures 0 <= PaddedCell(k, c.Width()) < |mask| {
      CellOf(k, c.Width(), c.Height());
      CellAt(Column(k, c.Width()) + 1, Row(k, c.Width()) + 1, c.Width() + 2, c.Height() + 2);
    }
  }
}
