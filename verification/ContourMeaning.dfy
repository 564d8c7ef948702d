/**
  What the fit of a silhouette means, from the set of its cells alone: shares of cells, an ellipse inscribed in the
  box, an ellipse with the silhouette's mean and spread, and the thresholds of the decision.
 */
module ContourMeaning {
  import opened Outcomes
  import opened Numbers
  import opened Raster
  import opened Grids
  import opened Contour
  import opened ContourProperties

  // ---------- Counting and measuring a set of cells; cell k of a window is in column k % width and row k / width

  datatype Axis = Across | Down

  function PlaceOn(axis: Axis, k: int, width: nat): int
    requires width > 0
  {
    if axis == Across then k % width else k / width
  }

  /** The cells at one place of the axis. */
  ghost function Line(cells: set<int>, axis: Axis, width: nat, v: int): set<int>
    requires width > 0
  {
    set k | k in cells && PlaceOn(axis, k, width) == v
  }

  /** The sum of the middles of the cells, line by line. */
  ghost function SumOn(cells: set<int>, axis: Axis, width: nat, n: nat): real
    requires width > 0
  {
    if n == 0 then 0.0
    else SumOn(cells, axis, width, n - 1) + ((n - 1) as real + 0.5) * |Line(cells, axis, width, n - 1)| as real
  }

  /** The sum of the squared distances of the middles from c, line by line. */
  ghost function DeviationOn(cells: set<int>, axis: Axis, width: nat, c: real, n: nat): real
    requires width > 0
  {
    if n == 0 then 0.0
    else
      var d := (n - 1) as real + 0.5 - c;
      DeviationOn(cells, axis, width, c, n - 1) + (d * d) * |Line(cells, axis, width, n - 1)| as real
  }

  ghost function Mean(cells: set<int>, axis: Axis, width: nat, n: nat): real
    requires width > 0 && cells != {}
  {
    SumOn(cells, axis, width, n) / |cells| as real
  }

  /** The mean squared distance from the mean. */
  ghost function MeanSquare(cells: set<int>, axis: Axis, width: nat, n: nat): real
    requires width > 0 && cells != {}
  {
    DeviationOn(cells, axis, width, Mean(cells, axis, width, n), n) / |cells| as real
  }

  // ---------- The two ellipses

  /** The cells of the window whose middle lies in the ellipse inscribed in the box. */
  ghost function BoxCells(width: nat, height: nat): set<int>
    requires width > 0 && height > 0
  {
    set k | 0 <= k < width * height && InBoxEllipse(k, width, height)
  }

  predicate InBoxEllipse(k: int, width: nat, height: nat)
    requires width > 0 && height > 0
  {
    var u := ((k % width) as real + 0.5 - width as real / 2.0) / (width as real / 2.0);
    var v := ((k / width) as real + 0.5 - height as real / 2.0) / (height as real / 2.0);
    u * u + v * v <= 1.0
  }

  /** The squared radius for a mean square: twice its root, and at least one. */
  function RadiusSquare(meanSquare: real): real {
    if 4.0 * meanSquare <= 1.0 then 1.0 else 4.0 * meanSquare
  }

  ghost predicate InMomentEllipse(k: int, cells: set<int>, width: nat, height: nat)
    requires width > 0 && cells != {}
  {
    var u := (k % width) as real + 0.5 - Mean(cells, Across, width, width);
    var v := (k / width) as real + 0.5 - Mean(cells, Down, width, height);
    var p := RadiusSquare(MeanSquare(cells, Across, width, width));
    var q := RadiusSquare(MeanSquare(cells, Down, width, height));
    p > 0.0 && q > 0.0 && u * u / p + v * v / q <= 1.0
  }

  ghost function MomentCells(cells: set<int>, width: nat, height: nat): set<int>
    requires width > 0 && cells != {}
  {
    set k | 0 <= k < width * height && InMomentEllipse(k, cells, width, height)
  }

  // ---------- The decision

  /** The share of the cells of either that are cells of both. */
  ghost function Agreement(a: set<int>, b: set<int>): real {
    if a + b == {} then 0.0 else |a * b| as real / |a + b| as real
  }

  /** How well a silhouette fits its box, and how well the better of its two ellipses. */
  ghost function BoxShare(cells: set<int>, width: nat, height: nat): real
    requires width > 0 && height > 0
  {
    if width * height > 0 then |cells| as real / (width * height) as real else 0.0
  }

  ghost function EllipseShare(cells: set<int>, width: nat, height: nat): real
    requires width > 0 && height > 0 && cells != {}
  {
    var box, moment := Agreement(cells, BoxCells(width, height)), Agreement(cells, MomentCells(cells, width, height));
    if box >= moment then box else moment
  }

  /**
    No shape when the better fit is below 0.8 or the two are closer than 0.06; else a rectangle, or an ellipse that is
    round exactly when its box is nearly square.
   */
  ghost predicate Recognized(fit: Fit, cells: set<int>, width: nat, height: nat)
    requires width > 0 && height > 0 && cells != {}
  {
    var box, ellipse := BoxShare(cells, width, height), EllipseShare(cells, width, height);
    var w, h := width as real, height as real;
    && fit.quality == (if box >= ellipse then box else ellipse)
    && (fit.shape == None <==> (box < 0.8 && ellipse < 0.8) || -0.06 < box - ellipse < 0.06)
    && (fit.shape == Some(Rectangle) <==> fit.shape != None && box > ellipse)
    && (fit.shape == Some(Round) <==> fit.shape != None && box < ellipse && 0.85 * h <= w <= 1.18 * h)
    && (fit.shape == Some(Oval) <==> fit.shape != None && box < ellipse && !(0.85 * h <= w <= 1.18 * h))
  }

  // ---------- Moments of the list are moments of the set

  lemma {:induction false} OneMoreInSum(cells: set<int>, axis: Axis, width: nat, k: int, n: nat)
    requires width > 0 && k !in cells
    ensures var v := PlaceOn(axis, k, width);
      SumOn(cells + {k}, axis, width, n) == SumOn(cells, axis, width, n) + if 0 <= v < n then v as real + 0.5 else 0.0
  {
    hide Line, PlaceOn;
    if n > 0 {
      OneMoreInSum(cells, axis, width, k, n - 1);
      LineGrows(cells, axis, width, k, n - 1);
      Distribute((n - 1) as real + 0.5, |Line(cells, axis, width, n - 1)| as real);
    }
  }

  lemma {:induction false} OneMoreDeviation(cells: set<int>, axis: Axis, width: nat, c: real, k: int, n: nat)
    requires width > 0 && k !in cells
    ensures var v := PlaceOn(axis, k, width);
      DeviationOn(cells + {k}, axis, width, c, n)
        == DeviationOn(cells, axis, width, c, n) + if 0 <= v < n then Square(v as real + 0.5 - c) else 0.0
  {
    hide Line, PlaceOn, DeviationOn, Times, Square;
    if n == 0 {
      NoLines(cells, axis, width, c);
      NoLines(cells + {k}, axis, width, c);
    } else {
      OneMoreDeviation(cells, axis, width, c, k, n - 1);
      LineGrows(cells, axis, width, k, n - 1);
      LineWeight(cells, axis, width, c, n - 1);
      LineWeight(cells + {k}, axis, width, c, n - 1);
      Weighted(Square((n - 1) as real + 0.5 - c), |Line(cells, axis, width, n - 1)|, PlaceOn(axis, k, width) == n - 1);
    }
  }

  lemma NoLines(cells: set<int>, axis: Axis, width: nat, c: real)
    requires width > 0
    ensures DeviationOn(cells, axis, width, c, 0) == 0.0
  {
  }

  /** One line of the deviations, its weight as one number. */
  lemma LineWeight(cells: set<int>, axis: Axis, width: nat, c: real, n: nat)
    requires width > 0
    ensures DeviationOn(cells, axis, width, c, n + 1)
      == DeviationOn(cells, axis, width, c, n)
        + Times(Square(n as real + 0.5 - c), |Line(cells, axis, width, n)| as real)
  {
    hide Line;
  }

  lemma Weighted(weight: real, n: int, more: bool)
    ensures Times(weight, (n + if more then 1 else 0) as real)
      == Times(weight, n as real) + if more then weight else 0.0
  {
  }

  lemma Distribute(a: real, n: real)
    ensures a * (n + 1.0) == a * n + a
  {
  }

  lemma LineGrows(cells: set<int>, axis: Axis, width: nat, k: int, v: int)
    requires width > 0 && k !in cells
    ensures |Line(cells + {k}, axis, width, v)|
      == |Line(cells, axis, width, v)| + if PlaceOn(axis, k, width) == v then 1 else 0
  {
    var hit := PlaceOn(axis, k, width) == v;
    var line := Line(cells, axis, width, v);
    assert Line(cells + {k}, axis, width, v) == if hit then line + {k} else line;
    GrewByOne(line, Line(cells + {k}, axis, width, v), k, hit);
  }

  lemma {:induction false} NoCells(axis: Axis, width: nat, c: real, n: nat)
    requires width > 0
    ensures SumOn({}, axis, width, n) == 0.0 && DeviationOn({}, axis, width, c, n) == 0.0
  {
    if n > 0 {
      NoCells(axis, width, c, n - 1);
      assert Line({}, axis, width, n - 1) == {};
    }
  }

  /** One more cell adds its middle to the sums, and its squared distances to the deviations. */
  lemma CellAdds(cells: set<int>, width: nat, height: nat, c: real, d: real, k: nat)
    requires width > 0 && k < width * height && k !in cells
    ensures var x, y := Middle(Column(k, width)), Middle(Row(k, width));
      && SumOn(cells + {k}, Across, width, width) == SumOn(cells, Across, width, width) + x
      && SumOn(cells + {k}, Down, width, height) == SumOn(cells, Down, width, height) + y
      && DeviationOn(cells + {k}, Across, width, c, width)
         == DeviationOn(cells, Across, width, c, width) + Square(x - c)
      && DeviationOn(cells + {k}, Down, width, d, height)
         == DeviationOn(cells, Down, width, d, height) + Square(y - d)
  {
    hide Square, SumOn, DeviationOn;
    CellOf(k, width, height);
    OneMoreInSum(cells, Across, width, k, width);
    OneMoreInSum(cells, Down, width, k, height);
    OneMoreDeviation(cells, Across, width, c, k, width);
    OneMoreDeviation(cells, Down, width, d, k, height);
  }

  /** The sums are those over the set of cells, and the spread is the sum of the deviations. */
  ghost predicate MomentsMatch(m: Moments, cells: set<int>, width: nat, height: nat, c: real, d: real)
    requires width > 0
  {
    && m.sumX == SumOn(cells, Across, width, width) && m.sumY == SumOn(cells, Down, width, height)
    && Spread(m.sumX, m.sumXX, m.area, c) == DeviationOn(cells, Across, width, c, width)
    && Spread(m.sumY, m.sumYY, m.area, d) == DeviationOn(cells, Down, width, d, height)
  }

  lemma NoCellsMatch(width: nat, height: nat, c: real, d: real)
    requires width > 0
    ensures MomentsMatch(Moments(0, 0.0, 0.0, 0.0, 0.0), {}, width, height, c, d)
  {
    hide SumOn, DeviationOn, Spread;
    NoCells(Across, width, c, width);
    NoCells(Down, width, d, height);
    EmptySpread(c);
    EmptySpread(d);
  }

  lemma OneMoreMatches(m: Moments, cells: set<int>, width: nat, height: nat, c: real, d: real, k: nat)
    requires width > 0 && k < width * height && k !in cells && MomentsMatch(m, cells, width, height, c, d)
    ensures MomentsMatch(AddCell(m, Column(k, width), Row(k, width)), cells + {k}, width, height, c, d)
  {
    hide Spread, Square, SumOn, DeviationOn, Column, Row, Middle;
    CellAdds(cells, width, height, c, d, k);
    SpreadAdd(m.sumX, m.sumXX, m.area, c, Middle(Column(k, width)));
    SpreadAdd(m.sumY, m.sumYY, m.area, d, Middle(Row(k, width)));
  }

  lemma {:induction false} RunningMatches(filled: seq<bool>, width: nat, height: nat, c: real, d: real, n: nat)
    requires width > 0 && |filled| == width * height && n <= |filled|
    ensures MomentsMatch(MomentsOf(filled, width, n), FilledCells(filled, n), width, height, c, d)
  {
    hide MomentsMatch, AddCell, Column, Row;
    if n == 0 {
      assert FilledCells(filled, 0) == {};
      NoCellsMatch(width, height, c, d);
    } else {
      RunningMatches(filled, width, height, c, d, n - 1);
      var m, cells := MomentsOf(filled, width, n - 1), FilledCells(filled, n - 1);
      assert FilledCells(filled, n) == if filled[n - 1] then cells + {n - 1} else cells;
      if filled[n - 1] { OneMoreMatches(m, cells, width, height, c, d, n - 1); }
    }
  }

  /** The running sums are the sums over the set of cells, and the spread is the sum of the deviations. */
  lemma MomentsMean(filled: seq<bool>, width: nat, height: nat, c: real, d: real, n: nat)
    requires width > 0 && |filled| == width * height && n <= |filled|
    ensures var m, cells := MomentsOf(filled, width, n), FilledCells(filled, n);
      && m.sumX == SumOn(cells, Across, width, width) && m.sumY == SumOn(cells, Down, width, height)
      && Spread(m.sumX, m.sumXX, m.area, c) == DeviationOn(cells, Across, width, c, width)
      && Spread(m.sumY, m.sumYY, m.area, d) == DeviationOn(cells, Down, width, d, height)
  {
    hide Spread, SumOn, DeviationOn, MomentsOf, FilledCells;
    RunningMatches(filled, width, height, c, d, n);
  }

  lemma EmptySpread(c: real)
    ensures Spread(0.0, 0.0, 0, c) == 0.0
  {
  }

  /** The variance of the running sums is the mean square about the mean. */
  lemma VarianceIsMeanSquare(sum: real, sumSquares: real, area: int)
    requires area > 0
    ensures Variance(sum, sumSquares, area) == Spread(sum, sumSquares, area, sum / area as real) / area as real
  {
    var n := area as real;
    var v := sum / n;
    assert v * sum == n * Square(v) by { assert sum == v * n; }
    assert Spread(sum, sumSquares, area, v) == sumSquares - n * Square(v);
    assert (sumSquares - n * Square(v)) / n == sumSquares / n - Square(v);
  }

  lemma {:induction false} OverlapCounts(filled: seq<bool>, width: nat, e: Ellipse, n: nat)
    requires width > 0 && n <= |filled| && e.Valid()
    ensures var o, cells, inside := OverlapOf(filled, width, e, n), FilledCells(filled, n), EllipseCells(e, width, n);
      o.intersection == |cells * inside| && o.union == |cells + inside|
  {
    hide Ellipse.Contains, FilledCells, EllipseCells, OverlapOf, Grew;
    OverlapStep(filled, width, e, n);
    if n == 0 {
      NoCellsYet(filled, width, e);
    } else {
      OverlapCounts(filled, width, e, n - 1);
      CellsGrow(filled, width, e, n - 1);
      OneMoreInBoth(FilledCells(filled, n - 1), EllipseCells(e, width, n - 1), FilledCells(filled, n),
                    EllipseCells(e, width, n), n - 1, filled[n - 1],
                    e.Contains(Column(n - 1, width), Row(n - 1, width)));
    }
  }

  lemma OverlapStep(filled: seq<bool>, width: nat, e: Ellipse, n: nat)
    requires width > 0 && n <= |filled| && e.Valid()
    ensures OverlapOf(filled, width, e, n) ==
      if n == 0 then Overlap(0, 0)
      else AddOverlap(OverlapOf(filled, width, e, n - 1), filled[n - 1],
                      e.Contains(Column(n - 1, width), Row(n - 1, width)))
  {
    hide Ellipse.Contains;
  }

  lemma NoCellsYet(filled: seq<bool>, width: nat, e: Ellipse)
    requires width > 0 && e.Valid()
    ensures |FilledCells(filled, 0) * EllipseCells(e, width, 0)| == 0
    ensures |FilledCells(filled, 0) + EllipseCells(e, width, 0)| == 0
  {
    assert FilledCells(filled, 0) == {} && EllipseCells(e, width, 0) == {};
    assert FilledCells(filled, 0) * EllipseCells(e, width, 0) == {};
    assert FilledCells(filled, 0) + EllipseCells(e, width, 0) == {};
  }

  lemma CellsGrow(filled: seq<bool>, width: nat, e: Ellipse, k: nat)
    requires width > 0 && k < |filled| && e.Valid()
    ensures Grew(FilledCells(filled, k), FilledCells(filled, k + 1), k, filled[k])
    ensures Grew(EllipseCells(e, width, k), EllipseCells(e, width, k + 1), k,
                 e.Contains(Column(k, width), Row(k, width)))
  {
    hide Ellipse.Contains;
  }

  /** The set has grown by k, or not at all. */
  ghost predicate Grew(s: set<int>, grown: set<int>, k: int, more: bool) {
    k !in s && grown == if more then s + {k} else s
  }

  lemma GrewByOne(s: set<int>, grown: set<int>, k: int, more: bool)
    requires Grew(s, grown, k, more)
    ensures |grown| == |s| + if more then 1 else 0
  {
  }

  lemma OneMoreInBoth(s: set<int>, t: set<int>, s': set<int>, t': set<int>, k: int, a: bool, b: bool)
    requires Grew(s, s', k, a) && Grew(t, t', k, b)
    ensures |s' * t'| == |s * t| + (if a && b then 1 else 0)
    ensures |s' + t'| == |s + t| + if a || b then 1 else 0
  {
    hide Grew;
    BothGrew(s, t, s', t', k, a, b);
    GrewByOne(s * t, s' * t', k, a && b);
    GrewByOne(s + t, s' + t', k, a || b);
  }

  lemma BothGrew(s: set<int>, t: set<int>, s': set<int>, t': set<int>, k: int, a: bool, b: bool)
    requires Grew(s, s', k, a) && Grew(t, t', k, b)
    ensures Grew(s * t, s' * t', k, a && b) && Grew(s + t, s' + t', k, a || b)
  {
    if a && b {
      assert s' * t' == s * t + {k} && s' + t' == (s + t) + {k};
    } else if a {
      assert s' * t' == s * t && s' + t' == (s + t) + {k};
    } else if b {
      assert s' * t' == s * t && s' + t' == (s + t) + {k};
    }
  }

  ghost function EllipseCells(e: Ellipse, width: nat, n: nat): set<int>
    requires width > 0 && e.Valid()
  {
    set k | 0 <= k < n && e.Contains(Column(k, width), Row(k, width))
  }

  // ---------- The fit means what it should

  lemma QuotientSquare(a: real, b: real)
    requires b > 0.0
    ensures Square(b) > 0.0 && Square(a) / Square(b) == (a / b) * (a / b)
  {
    TimesPositive(b, b);
    var u := a / b;
    assert a == u * b;
    assert Square(a) == (u * u) * Square(b);
  }

  lemma BoxCellsAre(width: nat, height: nat)
    requires width > 0 && height > 0
    ensures EllipseCells(BoxEllipse(width, height), width, width * height) == BoxCells(width, height)
  {
    hide Square;
    var rx, ry := width as real / 2.0, height as real / 2.0;
    forall k | 0 <= k < width * height
      ensures BoxEllipse(width, height).Contains(Column(k, width), Row(k, width)) <==> InBoxEllipse(k, width, height)
    {
      QuotientSquare(Middle(Column(k, width)) - rx, rx);
      QuotientSquare(Middle(Row(k, width)) - ry, ry);
    }
  }

  lemma MomentEllipseIs(filled: seq<bool>, width: nat, height: nat)
    requires width > 0 && height > 0 && |filled| == width * height && FilledCells(filled, |filled|) != {}
    ensures var m, cells := MomentsOf(filled, width, |filled|), FilledCells(filled, |filled|);
      MomentEllipse(m) == Ellipse(Mean(cells, Across, width, width), Mean(cells, Down, width, height),
                                  RadiusSquare(MeanSquare(cells, Across, width, width)),
                                  RadiusSquare(MeanSquare(cells, Down, width, height)))
  {
    hide Spread, Variance, SumOn, DeviationOn, MomentsOf;
    var m, cells := MomentsOf(filled, width, |filled|), FilledCells(filled, |filled|);
    AreaCounts(filled, width, |filled|);
    var n := m.area as real;
    MomentsMean(filled, width, height, m.sumX / n, m.sumY / n, |filled|);
    VarianceIsMeanSquare(m.sumX, m.sumXX, m.area);
    VarianceIsMeanSquare(m.sumY, m.sumYY, m.area);
    MomentsNonNegative(filled, width, |filled|);
  }

  lemma MomentCellsAre(filled: seq<bool>, width: nat, height: nat)
    requires width > 0 && height > 0 && |filled| == width * height && FilledCells(filled, |filled|) != {}
    ensures EllipseCells(MomentEllipse(MomentsOf(filled, width, |filled|)), width, width * height)
      == MomentCells(FilledCells(filled, |filled|), width, height)
  {
    hide MomentsOf, MomentEllipse, MeanSquare, Mean, RadiusSquared;
    MomentEllipseIs(filled, width, height);
    var e, cells := MomentEllipse(MomentsOf(filled, width, |filled|)), FilledCells(filled, |filled|);
    forall k | 0 <= k < width * height
      ensures e.Contains(Column(k, width), Row(k, width)) <==> InMomentEllipse(k, cells, width, height) {}
  }

  lemma SharesAre(filled: seq<bool>, width: nat, height: nat)
    requires width > 0 && height > 0 && |filled| == width * height && FilledCells(filled, |filled|) != {}
    ensures var cells := FilledCells(filled, |filled|);
      && RectangleFit(filled, width, height) == BoxShare(cells, width, height)
      && EllipseFit(filled, width, height) == EllipseShare(cells, width, height)
  {
    hide MomentsOf, OverlapOf, BoxCells, MomentCells, EllipseCells, MomentEllipse, BoxEllipse, FilledCells;
    var m, cells := MomentsOf(filled, width, |filled|), FilledCells(filled, |filled|);
    CellAt(0, 0, width, height);
    AreaCounts(filled, width, |filled|);
    BoxCellsAre(width, height);
    MomentCellsAre(filled, width, height);
    OverlapCounts(filled, width, BoxEllipse(width, height), |filled|);
    OverlapCounts(filled, width, MomentEllipse(m), |filled|);
    RatioIsAgreement(OverlapOf(filled, width, BoxEllipse(width, height), |filled|), cells, BoxCells(width, height));
    RatioIsAgreement(OverlapOf(filled, width, MomentEllipse(m), |filled|), cells, MomentCells(cells, width, height));
  }

  lemma RatioIsAgreement(o: Overlap, a: set<int>, b: set<int>)
    requires a != {} && o.intersection == |a * b| && o.union == |a + b|
    ensures Ratio(o) == Agreement(a, b)
  {
    assert a + b != {};
  }

  /** The fit of every silhouette that is not empty is the one that its cells ask for. */
  lemma FitMeans(filled: seq<bool>, width: nat, height: nat)
    requires width > 0 && height > 0 && |filled| == width * height && FilledCells(filled, |filled|) != {}
    ensures Recognized(FitOf(filled, width, height), FilledCells(filled, |filled|), width, height)
  {
    hide RectangleFit, EllipseFit, BoxShare, EllipseShare, FilledCells;
    SharesAre(filled, width, height);
    AspectMeans(width, height);
  }

  lemma AspectMeans(width: nat, height: nat)
    requires width > 0 && height > 0
    ensures var w, h := width as real, height as real; 0.85 <= w / h <= 1.18 <==> 0.85 * h <= w <= 1.18 * h
  {
    QuotientOrder(width as real, height as real, 0.85);
    QuotientOrder(width as real, height as real, 1.18);
  }

  /** A disc is round, and an ellipse twice as long as wide is oval: both are recognised without loss. */
  lemma PerfectEllipse(filled: seq<bool>, width: nat, height: nat)
    requires width > 0 && height > 0 && |filled| == width * height && FilledCells(filled, |filled|) != {}
    requires FilledCells(filled, |filled|) == BoxCells(width, height)
    requires BoxShare(BoxCells(width, height), width, height) <= 0.94
    ensures FitOf(filled, width, height).quality == 1.0
    ensures width == height ==> FitOf(filled, width, height).shape == Some(Round)
    ensures width >= 2 * height || height >= 2 * width ==> FitOf(filled, width, height).shape == Some(Oval)
  {
    hide BoxCells, MomentCells, FitOf, FilledCells, BoxShare;
    var cells := FilledCells(filled, |filled|);
    FitMeans(filled, width, height);
    AgreesWithItself(cells);
    AgreementBounds(cells, MomentCells(cells, width, height));
  }

  lemma AgreesWithItself(cells: set<int>)
    requires cells != {}
    ensures Agreement(cells, cells) == 1.0
  {
    assert cells * cells == cells && cells + cells == cells;
  }

  lemma AgreementBounds(a: set<int>, b: set<int>)
    ensures 0.0 <= Agreement(a, b) <= 1.0
  {
    SubsetSize(a * b, a + b);
    if a + b != {} {
      QuotientOrder(|a * b| as real, |a + b| as real, 1.0);
      QuotientOrder(|a * b| as real, |a + b| as real, 0.0);
    }
  }
}
