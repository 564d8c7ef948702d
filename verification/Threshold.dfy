/**
  Otsu's threshold (raster-components.ts, binaryThreshold): one pass over a histogram maximises the
  between-class variance. The reference is the naive statistic: split the pixels, add up each class's
  squared deviations from its own mean.
 */
module Threshold {
  import opened Outcomes
  import opened Numbers
  import opened Raster

  // ---------- The naive statistic

  function Sum(s: seq<Pixel>): int {
    if s == [] then 0 else Sum(s[..|s| - 1]) + s[|s| - 1]
  }

  function SumSquares(s: seq<Pixel>): int {
    if s == [] then 0
    else
      var last: int := s[|s| - 1];
      SumSquares(s[..|s| - 1]) + Squared(last)
  }

  function Dark(data: seq<Pixel>, t: int): seq<Pixel> {
    Filter(data, (p: Pixel) => p <= t)
  }

  function Light(data: seq<Pixel>, t: int): seq<Pixel> {
    Filter(data, (p: Pixel) => p > t)
  }

  function DeviationsFrom(s: seq<Pixel>, v: real): real {
    if s == [] then 0.0
    else DeviationsFrom(s[..|s| - 1], v) + (s[|s| - 1] as real - v) * (s[|s| - 1] as real - v)
  }

  function Mean(s: seq<Pixel>): real
    requires s != []
  {
    Sum(s) as real / |s| as real
  }

  /** The squared deviations of a class from its own mean. */
  function Scatter(s: seq<Pixel>): real {
    if s == [] then 0.0 else DeviationsFrom(s, Mean(s))
  }

  /** The within-class scatter of the split at t. */
  function Within(data: seq<Pixel>, t: int): real {
    Scatter(Dark(data, t)) + Scatter(Light(data, t))
  }

  // ---------- The statistic that the scan maximises

  function Between(weight: int, remaining: int, darkSum: int, lightSum: int): real
    requires weight > 0 && remaining > 0
  {
    var difference := darkSum as real / weight as real - lightSum as real / remaining as real;
    weight as real * remaining as real * difference * difference
  }

  function BetweenAt(data: seq<Pixel>, t: int): real
    requires Dark(data, t) != [] && Light(data, t) != []
  {
    Between(|Dark(data, t)|, |Light(data, t)|, Sum(Dark(data, t)), Sum(Light(data, t)))
  }

  // ---------- Total = within + between

  lemma {:induction false} DeviationsExpand(s: seq<Pixel>, v: real)
    ensures DeviationsFrom(s, v) == SumSquares(s) as real - 2.0 * (v * Sum(s) as real) + |s| as real * (v * v)
  {
    if s == [] {
    } else {
      var rest := s[..|s| - 1];
      var last: int := s[|s| - 1];
      DeviationsExpand(rest, v);
      var u := last as real;
      assert (u - v) * (u - v) == u * u - 2.0 * (v * u) + v * v;
      assert Squared(last) as real == u * u;
      assert v * Sum(s) as real == v * Sum(rest) as real + v * u;
      assert |s| as real * (v * v) == |rest| as real * (v * v) + v * v;
    }
  }

  lemma MeanTimesSize(s: seq<Pixel>)
    requires s != []
    ensures |s| as real * Mean(s) == Sum(s) as real
  {
  }

  lemma ScatterFromSums(s: seq<Pixel>)
    requires s != []
    ensures Scatter(s) == SumSquares(s) as real - |s| as real * (Mean(s) * Mean(s))
  {
    hide SumSquares, Sum, Mean, DeviationsFrom;
    var v, n := Mean(s), |s| as real;
    DeviationsExpand(s, v);
    MeanTimesSize(s);
    assert v * Sum(s) as real == n * (v * v);
  }

  lemma SumAppend(s: seq<Pixel>, p: Pixel)
    ensures Sum(s + [p]) == Sum(s) + p && SumSquares(s + [p]) == SumSquares(s) + Squared(p)
  {
    assert (s + [p])[..|s|] == s;
  }

  function Squared(v: int): int {
    v * v
  }

  lemma {:induction false} SplitSums(data: seq<Pixel>, t: int)
    ensures |Dark(data, t)| + |Light(data, t)| == |data|
    ensures Sum(Dark(data, t)) + Sum(Light(data, t)) == Sum(data)
    ensures SumSquares(Dark(data, t)) + SumSquares(Light(data, t)) == SumSquares(data)
  {
    hide Sum, SumSquares, Squared;
    if data == [] {
      SumEmpty();
    } else {
      var rest, last := data[..|data| - 1], data[|data| - 1];
      SplitSums(rest, t);
      SumAppend(rest, last);
      SumAppend(Dark(rest, t), last);
      SumAppend(Light(rest, t), last);
      assert data == rest + [last];
      assert Dark(data, t) == if last <= t then Dark(rest, t) + [last] else Dark(rest, t);
      assert Light(data, t) == if last > t then Light(rest, t) + [last] else Light(rest, t);
    }
  }

  lemma SumEmpty()
    ensures Sum([]) == 0 && SumSquares([]) == 0
  {
  }

  /** The polynomial identity behind it: a and b are the class means, w and r the class sizes. */
  lemma BetweenIdentity(w: real, r: real, a: real, b: real)
    ensures (w + r) * (w * (a * a) + r * (b * b)) - (w * a + r * b) * (w * a + r * b) == w * r * (a - b) * (a - b)
  {
  }

  /** Scaled by the number of pixels: total scatter is within plus between. */
  lemma TotalIsWithinPlusBetween(data: seq<Pixel>, t: int)
    requires Dark(data, t) != [] && Light(data, t) != []
    ensures |data| as real * Within(data, t) + BetweenAt(data, t)
         == |data| as real * SumSquares(data) as real - Sum(data) as real * Sum(data) as real
  {
    hide *;
    var d, l := Dark(data, t), Light(data, t);
    SplitSums(data, t);
    ScatterFromSums(d);
    ScatterFromSums(l);
    MeanTimesSize(d);
    MeanTimesSize(l);
    WithinAndBetween(data, t);
    var w, r, a, b := |d| as real, |l| as real, Mean(d), Mean(l);
    BetweenIdentity(w, r, a, b);
    var q := SumSquares(data) as real;
    assert Within(data, t) == q - (w * (a * a) + r * (b * b));
    assert |data| as real == w + r && Sum(data) as real == w * a + r * b;
    assert (w + r) * Within(data, t) == (w + r) * q - (w + r) * (w * (a * a) + r * (b * b));
  }

  lemma WithinAndBetween(data: seq<Pixel>, t: int)
    requires Dark(data, t) != [] && Light(data, t) != []
    ensures Within(data, t) == Scatter(Dark(data, t)) + Scatter(Light(data, t))
    ensures var w, r := |Dark(data, t)| as real, |Light(data, t)| as real;
      var a, b := Mean(Dark(data, t)), Mean(Light(data, t));
      BetweenAt(data, t) == w * r * (a - b) * (a - b)
  {
  }

  /** More between-class variance is less within-class scatter, and conversely. */
  lemma BetweenOrdersWithin(data: seq<Pixel>, s: int, t: int)
    requires Dark(data, s) != [] && Light(data, s) != [] && Dark(data, t) != [] && Light(data, t) != []
    ensures BetweenAt(data, s) < BetweenAt(data, t) <==> Within(data, t) < Within(data, s)
    ensures BetweenAt(data, s) <= BetweenAt(data, t) <==> Within(data, t) <= Within(data, s)
  {
    hide *;
    TotalIsWithinPlusBetween(data, s);
    TotalIsWithinPlusBetween(data, t);
    var n := |data| as real;
    assert n > 0.0 by { SplitSums(data, t); }
    Scaled(n, Within(data, s), Within(data, t));
  }

  // ---------- The scan

  function Count(s: seq<Pixel>, v: int): nat {
    if s == [] then 0 else Count(s[..|s| - 1], v) + if s[|s| - 1] == v then 1 else 0
  }

  lemma LastOrBefore(s: seq<Pixel>)
    requires s != []
    ensures s[|s| - 1] in s
    ensures forall p: int :: p in s <==> p in s[..|s| - 1] || p == s[|s| - 1]
    ensures |s| == 1 ==> forall p: int :: p in s <==> p == s[0]
  {
    assert s == s[..|s| - 1] + [s[|s| - 1]];
  }

  function Darkest(s: seq<Pixel>): (m: Pixel)
    requires s != []
    ensures m in s && forall p :: p in s ==> m <= p
  {
    LastOrBefore(s);
    if |s| == 1 then s[0] else
      var m := Darkest(s[..|s| - 1]);
      if s[|s| - 1] < m then s[|s| - 1] else m
  }

  function Lightest(s: seq<Pixel>): (m: Pixel)
    requires s != []
    ensures m in s && forall p :: p in s ==> p <= m
  {
    LastOrBefore(s);
    if |s| == 1 then s[0] else
      var m := Lightest(s[..|s| - 1]);
      if s[|s| - 1] > m then s[|s| - 1] else m
  }

  /** Both classes are non-empty for every threshold from the darkest value up to, not including, the lightest. */
  lemma BothClasses(data: seq<Pixel>, t: int)
    requires data != [] && Darkest(data) <= t < Lightest(data)
    ensures Dark(data, t) != [] && Light(data, t) != []
  {
    assert Darkest(data) in Dark(data, t) && Lightest(data) in Light(data, t);
  }

  lemma {:induction false} DarkStep(data: seq<Pixel>, v: int)
    ensures |Dark(data, v)| == |Dark(data, v - 1)| + Count(data, v)
    ensures Sum(Dark(data, v)) == Sum(Dark(data, v - 1)) + v * Count(data, v)
  {
    hide Sum, SumSquares, Squared;
    if data == [] {
      SumEmpty();
    } else {
      var rest, last := data[..|data| - 1], data[|data| - 1];
      DarkStep(rest, v);
      SumAppend(Dark(rest, v), last);
      SumAppend(Dark(rest, v - 1), last);
      assert Dark(data, v) == if last <= v then Dark(rest, v) + [last] else Dark(rest, v);
      assert Dark(data, v - 1) == if last <= v - 1 then Dark(rest, v - 1) + [last] else Dark(rest, v - 1);
      assert v * (Count(rest, v) + 1) == v * Count(rest, v) + v;
    }
  }

  lemma {:induction false} AllOrNothing(data: seq<Pixel>, t: int)
    ensures (forall p :: p in data ==> p <= t) ==> Dark(data, t) == data && Light(data, t) == []
    ensures (forall p :: p in data ==> p > t) ==> Light(data, t) == data && Dark(data, t) == []
  {
    if data != [] {
      var rest, last := data[..|data| - 1], data[|data| - 1];
      AllOrNothing(rest, t);
      assert last in data && forall p :: p in rest ==> p in data;
      assert data == rest + [last];
      assert Dark(data, t) == if last <= t then Dark(rest, t) + [last] else Dark(rest, t);
      assert Light(data, t) == if last > t then Light(rest, t) + [last] else Light(rest, t);
    }
  }

  lemma NothingDarker(data: seq<Pixel>)
    requires data != []
    ensures Dark(data, Darkest(data) - 1) == []
  {
    AllOrNothing(data, Darkest(data) - 1);
  }

  lemma BetweenNonNegative(data: seq<Pixel>, t: int)
    requires Dark(data, t) != [] && Light(data, t) != []
    ensures BetweenAt(data, t) >= 0.0
  {
    WithinAndBetween(data, t);
    var w, r := |Dark(data, t)| as real, |Light(data, t)| as real;
    var difference := Mean(Dark(data, t)) - Mean(Light(data, t));
    NonNegativeProduct(w, r, difference);
  }

  lemma NonNegativeProduct(w: real, r: real, d: real)
    requires w >= 0.0 && r >= 0.0
    ensures w * r * d * d >= 0.0
  {
    assert w * r >= 0.0 && d * d >= 0.0;
    assert w * r * d * d == (w * r) * (d * d);
  }

  /** The first threshold that minimises the within-class scatter, between two non-empty classes. */
  ghost predicate IsOtsu(data: seq<Pixel>, t: int)
    requires data != []
  {
    && Darkest(data) <= t < Lightest(data)
    && Dark(data, t) != [] && Light(data, t) != []
    && (forall u :: Darkest(data) <= u < Lightest(data) ==> Within(data, t) <= Within(data, u))
    && (forall u :: Darkest(data) <= u < t ==> Within(data, t) < Within(data, u))
  }

  /** The scan has looked at every threshold below `value`; none beats `best`, and none earlier equals it. */
  ghost predicate BestSoFar(data: seq<Pixel>, value: int, t: int, best: real)
    requires data != []
  {
    && Darkest(data) <= t < value <= Lightest(data)
    && (forall u :: Darkest(data) <= u < value ==> Dark(data, u) != [] && Light(data, u) != [])
    && best == BetweenAt(data, t)
    && (forall u :: Darkest(data) <= u < value ==> BetweenAt(data, u) <= best)
    && (forall u :: Darkest(data) <= u < t ==> BetweenAt(data, u) < best)
  }

  lemma BestIsOtsu(data: seq<Pixel>, t: int, best: real)
    requires data != [] && BestSoFar(data, Lightest(data), t, best)
    ensures IsOtsu(data, t)
  {
    hide Within, BetweenAt, Dark, Light;
    forall u | Darkest(data) <= u < Lightest(data) ensures Within(data, t) <= Within(data, u) {
      BetweenOrdersWithin(data, u, t);
    }
    forall u | Darkest(data) <= u < t ensures Within(data, t) < Within(data, u) { BetweenOrdersWithin(data, u, t); }
  }

  method Histogram(data: seq<Pixel>) returns (histogram: array<int>, sum: int, minimum: int, maximum: int)
    requires data != []
    ensures histogram.Length == 256 && forall v :: 0 <= v < 256 ==> histogram[v] == Count(data, v)
    ensures sum == Sum(data) && minimum == Darkest(data) && maximum == Lightest(data)
  {
    histogram := new int[256](_ => 0);
    sum, minimum, maximum := 0, 255, 0;
    for i := 0 to |data|
      invariant forall v :: 0 <= v < 256 ==> histogram[v] == Count(data[..i], v)
      invariant sum == Sum(data[..i])
      invariant if i == 0 then minimum == 255 && maximum == 0
                else minimum == Darkest(data[..i]) && maximum == Lightest(data[..i])
    {
      var value := data[i];
      assert data[..i + 1][..i] == data[..i];
      histogram[value] := histogram[value] + 1;
      sum := sum + value;
      minimum := Min(minimum, value);
      maximum := Max(maximum, value);
    }
    assert data[..|data|] == data;
  }

  method Maximise(data: seq<Pixel>, histogram: array<int>, sum: int, minimum: int, maximum: int)
    returns (threshold: int)
    requires data != [] && histogram.Length == 256 && forall v :: 0 <= v < 256 ==> histogram[v] == Count(data, v)
    requires sum == Sum(data) && minimum == Darkest(data) && maximum == Lightest(data) && minimum < maximum
    ensures IsOtsu(data, threshold)
  {
    hide Dark, Light, Sum, Count;
    var weight, partialSum := 0, 0;
    var bestVariance := -1.0;
    threshold := minimum;
    NothingDarker(data);
    SumEmpty();
    for value := minimum to maximum
      invariant weight == |Dark(data, value - 1)| && partialSum == Sum(Dark(data, value - 1))
      invariant if value == minimum then bestVariance == -1.0 else BestSoFar(data, value, threshold, bestVariance)
    {
      DarkStep(data, value);
      weight := weight + histogram[value];
      partialSum := partialSum + value * histogram[value];
      var remaining := |data| - weight;
      SplitSums(data, value);
      BothClasses(data, value);
      assert weight > 0 && remaining > 0;  // the guard below never skips a value
      if weight > 0 && remaining > 0 {
        var variance := Between(weight, remaining, partialSum, sum - partialSum);
        BetweenNonNegative(data, value);
        assert variance == BetweenAt(data, value);
        if variance > bestVariance {
          bestVariance := variance;
          threshold := value;
        }
      }
    }
    BestIsOtsu(data, threshold, bestVariance);
  }

  /** None for a uniform bright image; an error for an unusable raster or for too little contrast. */
  method BinaryThreshold(source: Source) returns (r: Result<Option<int>, ErrorCode>)
    ensures source.Valid() <==> 1 <= source.width <= 1600 && 1 <= source.height <= 1600 && source.channels == 1
                                && |source.data| == source.width * source.height
    ensures !source.Valid() <==> r == Err(InvalidRaster)
    ensures source.Valid() ==> source.data != []
    ensures source.Valid() && Lightest(source.data) - Darkest(source.data) < 24 ==>
      r == if Darkest(source.data) >= 224 then Ok(None) else Err(UnsupportedContrast)
    ensures source.Valid() && Lightest(source.data) - Darkest(source.data) >= 24 ==>
      r.Ok? && r.value.Some? && IsOtsu(source.data, r.value.value)
  {
    ValidMeans(source);
    hide Source.Valid;
    if !source.Valid() {
      return Err(InvalidRaster);
    }
    assert source.width * source.height >= 1;
    var histogram, sum, minimum, maximum := Histogram(source.data);
    if maximum - minimum < 24 {
      return if minimum >= 224 then Ok(None) else Err(UnsupportedContrast);
    }
    var threshold := Maximise(source.data, histogram, sum, minimum, maximum);
    return Ok(Some(threshold));
  }

  // ---------- Beyond the scanned range

  /** No threshold at all, scanned or not, splits the pixels with less scatter. */
  lemma OtsuIsGlobal(data: seq<Pixel>, t: int, u: int)
    requires data != [] && IsOtsu(data, t)
    ensures Within(data, t) <= Within(data, u)
  {
    if u < Darkest(data) || u >= Lightest(data) {
      IsOtsuBounds(data, t);
      SplitBeatsOneClass(data, t, u);
    } else {
      ScannedIsWorse(data, t, u);
    }
  }

  lemma OtsuIsUnique(data: seq<Pixel>, t: int, u: int)
    requires data != [] && IsOtsu(data, t) && IsOtsu(data, u)
    ensures t == u
  {
    hide Within, Dark, Light, Darkest, Lightest;
    ScannedIsWorse(data, t, u);
    ScannedIsWorse(data, u, t);
  }

  lemma ScannedIsWorse(data: seq<Pixel>, t: int, u: int)
    requires data != [] && IsOtsu(data, t) && Darkest(data) <= u < Lightest(data)
    ensures Within(data, t) <= Within(data, u)
  {
    hide Within, Dark, Light, Darkest, Lightest;
  }

  lemma SplitBeatsOneClass(data: seq<Pixel>, t: int, u: int)
    requires data != [] && Dark(data, t) != [] && Light(data, t) != []
    requires u < Darkest(data) || u >= Lightest(data)
    ensures Within(data, t) <= Within(data, u)
  {
    hide *;
    OneClass(data, u);
    ScaledScatter(data);
    TotalIsWithinPlusBetween(data, t);
    BetweenNonNegative(data, t);
    SmallerShare(|data| as real, Within(data, t), Scatter(data), BetweenAt(data, t),
                 |data| as real * SumSquares(data) as real - Sum(data) as real * Sum(data) as real);
  }

  lemma SmallerShare(n: real, within: real, scatter: real, between: real, total: real)
    requires n > 0.0 && between >= 0.0 && n * within + between == total && n * scatter == total
    ensures within <= scatter
  {
    Scaled(n, within, scatter);
  }

  lemma IsOtsuBounds(data: seq<Pixel>, t: int)
    requires data != [] && IsOtsu(data, t)
    ensures Dark(data, t) != [] && Light(data, t) != []
  {
  }

  lemma ScaledScatter(data: seq<Pixel>)
    requires data != []
    ensures |data| as real * Scatter(data)
         == |data| as real * SumSquares(data) as real - Sum(data) as real * Sum(data) as real
  {
    hide *;
    ScatterFromSums(data);
    MeanTimesSize(data);
    var n, m, q := |data| as real, Mean(data), SumSquares(data) as real;
    assert n * (q - n * (m * m)) == n * q - (n * m) * (n * m);
  }

  lemma OneClass(data: seq<Pixel>, u: int)
    requires data != [] && (u < Darkest(data) || u >= Lightest(data))
    ensures Within(data, u) == Scatter(data)
  {
    AllOrNothing(data, u);
    if u < Darkest(data) {
      assert forall p :: p in data ==> p > u;
    } else {
      assert forall p :: p in data ==> p <= u;
    }
  }
}
