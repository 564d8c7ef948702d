/** The fit of a component's contour (raster-components.ts, fitContour), and what its cells say it must be. */
module ContourFits {
  import opened Outcomes
  import opened Raster
  import opened Grids
  import opened Components
  import opened Contour
  import opened ContourProperties
  import opened ContourMeaning

  /** The padded cell lies over a pixel of the component: one column and one row of margin on every side. */
  predicate IsInked(ink: set<int>, c: Component, imageWidth: nat, p: int)
    requires c.Width() > 0
  {
    var x, y := p % (c.Width() + 2) - 1, p / (c.Width() + 2) - 1;
    0 <= x < c.Width() && 0 <= y < c.Height() && (y + c.minY) * imageWidth + (x + c.minX) in ink
  }

  /** Padded cells without ink, each beside, above or below the one before. */
  predicate IsOutsidePath(ink: set<int>, c: Component, imageWidth: nat, p: seq<int>)
    requires c.Width() > 0
  {
    var stride := c.Width() + 2;
    && |p| > 0 && p[0] == 0
    && (forall k :: 0 <= k < |p| ==> 0 <= p[k] < stride * (c.Height() + 2) && !IsInked(ink, c, imageWidth, p[k]))
    && forall k :: 0 < k < |p| ==> AreBeside(p[k - 1], p[k], stride)
  }

  /** In neighbouring columns of one row or neighbouring rows of one column, or the same cell. */
  predicate AreBeside(p: int, q: int, stride: int)
    requires stride > 0
  {
    var dx, dy := q % stride - p % stride, q / stride - p / stride;
    (dx == 0 && -1 <= dy <= 1) || (dy == 0 && -1 <= dx <= 1)
  }

  /** A path of inkless cells leads from the corner of the margin to the padded cell. */
  ghost predicate IsOutside(ink: set<int>, c: Component, imageWidth: nat, q: int)
    requires c.Width() > 0
  {
    exists p :: IsOutsidePath(ink, c, imageWidth, p) && p[|p| - 1] == q
  }

  /** The cells of the component's box that no path of inkless cells joins to the margin. */
  ghost function EnclosedCells(ink: set<int>, c: Component, imageWidth: nat): set<int>
    requires c.Width() > 0 && c.Height() > 0
  {
    var w := c.Width();
    set k | 0 <= k < w * c.Height() && !IsOutside(ink, c, imageWidth, (k / w + 1) * (w + 2) + (k % w + 1))
  }

  lemma OutsideMeans(ink: set<int>, c: Component, imageWidth: nat, q: int)
    requires c.Width() > 0 && c.Height() > 0
    ensures Margin(ink, c, imageWidth).Connected(0, q) <==> IsOutside(ink, c, imageWidth, q)
  {
    var g := Margin(ink, c, imageWidth);
    if g.Connected(0, q) {
      var p :| g.Joins(p, 0, q);
      PathMeans(ink, c, imageWidth, p);
    }
    if IsOutside(ink, c, imageWidth, q) {
      var p :| IsOutsidePath(ink, c, imageWidth, p) && p[|p| - 1] == q;
      PathMeans(ink, c, imageWidth, p);
      assert g.Joins(p, 0, q);
    }
  }

  lemma PathMeans(ink: set<int>, c: Component, imageWidth: nat, p: seq<int>)
    requires c.Width() > 0 && c.Height() > 0 && |p| > 0 && p[0] == 0
    ensures Margin(ink, c, imageWidth).IsPath(p) <==> IsOutsidePath(ink, c, imageWidth, p)
  {
    hide IsInked, HasInk, AreBeside, Column, Row;
    var g := Margin(ink, c, imageWidth);
    forall q ensures HasInk(ink, c, imageWidth, q) <==> IsInked(ink, c, imageWidth, q) {
      InkMeans(ink, c, imageWidth, q);
    }
    forall q, r ensures g.Near(q, r) <==> AreBeside(q, r, c.Width() + 2) { NearMeans(ink, c, imageWidth, q, r); }
    if g.IsPath(p) {
      forall k | 0 <= k < |p| ensures g.Node(p[k]) { assert k > 0 ==> g.Step(p[k - 1], p[k]); }
      forall k | 0 < k < |p| ensures g.Near(p[k - 1], p[k]) { assert g.Step(p[k - 1], p[k]); }
    }
  }

  lemma InkMeans(ink: set<int>, c: Component, imageWidth: nat, q: int)
    requires c.Width() > 0
    ensures HasInk(ink, c, imageWidth, q) <==> IsInked(ink, c, imageWidth, q)
  {
  }

  lemma NearMeans(ink: set<int>, c: Component, imageWidth: nat, q: int, r: int)
    requires c.Width() > 0 && c.Height() > 0
    ensures Margin(ink, c, imageWidth).Near(q, r) <==> AreBeside(q, r, c.Width() + 2)
  {
    hide Margin;
  }

  lemma FilledAreEnclosed(ink: set<int>, c: Component, imageWidth: nat)
    requires c.Width() > 0 && c.Height() > 0
    ensures var filled := Silhouette(ink, c, imageWidth);
      FilledCells(filled, |filled|) == EnclosedCells(ink, c, imageWidth)
  {
    hide Margin, IsOutside;
    var w, filled := c.Width(), Silhouette(ink, c, imageWidth);
    forall k | 0 <= k < w * c.Height()
      ensures filled[k] <==> !IsOutside(ink, c, imageWidth, (k / w + 1) * (w + 2) + (k % w + 1))
    {
      assert PaddedCell(k, w) == (k / w + 1) * (w + 2) + (k % w + 1);
      OutsideMeans(ink, c, imageWidth, PaddedCell(k, w));
    }
  }

  lemma FitIsRecognized(ink: set<int>, c: Component, imageWidth: nat)
    requires c.Width() > 0 && c.Height() > 0
    ensures var cells := EnclosedCells(ink, c, imageWidth);
      cells != {} ==>
        Recognized(FitOf(Silhouette(ink, c, imageWidth), c.Width(), c.Height()), cells, c.Width(), c.Height())
  {
    hide EnclosedCells, FitOf, Silhouette, Recognized;
    FilledAreEnclosed(ink, c, imageWidth);
    if EnclosedCells(ink, c, imageWidth) != {} { FitMeans(Silhouette(ink, c, imageWidth), c.Width(), c.Height()); }
  }

  method FitContour(c: Component, labels: seq<int>, imageWidth: nat) returns (fit: Fit)
    requires InImage(c, imageWidth, |labels|)
    ensures fit == FitOf(Silhouette(InkOf(labels, c.id), c, imageWidth), c.Width(), c.Height())
    ensures var cells := EnclosedCells(InkOf(labels, c.id), c, imageWidth);
      cells != {} ==> Recognized(fit, cells, c.Width(), c.Height())
  {
    hide Margin, Silhouette, HasInk, Shows, MomentsOf, OverlapOf, InkOf, Classify, EnclosedCells,
      Recognized;
    var width, height := c.Width(), c.Height();
    ghost var ink := InkOf(labels, c.id);
    var mask := PaintMask(c, labels, imageWidth);
    CornerIsOpen(ink, c, imageWidth);
    FloodExterior(mask, Margin(ink, c, imageWidth), width + 2, height + 2);
    ghost var filled := Silhouette(ink, c, imageWidth);
    SilhouetteShown(ink, c, imageWidth, mask[..]);
    var m := MeasureMoments(mask[..], width, height, filled);
    var inBox, inMoment := CompareEllipses(mask[..], width, height, BoxEllipse(width, height), MomentEllipse(m),
                                           filled);
    CellAt(0, 0, width, height);
    var rectangleFit := m.area as real / (width * height) as real;
    var ellipseFit := MaxReal(Ratio(inBox), Ratio(inMoment));
    FitIsRecognized(ink, c, imageWidth);
    fit := Classify(rectangleFit, ellipseFit, width, height);
  }
}
