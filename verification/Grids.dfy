/**
  Pixel rasters as graphs. A grid's open cells are its nodes; two open cells are joined when they are
  neighbours, diagonally as well if `diagonal` is set. Connectedness is defined by paths, so nothing
  here depends on any particular traversal.
 */
module Grids {

  function Column(i: int, width: nat): int
    requires width > 0
  {
    i % width
  }

  function Row(i: int, width: nat): int
    requires width > 0
  {
    i / width
  }

  function Cell(x: int, y: int, width: nat): int {
    y * width + x
  }

  /** A column and a row inside the grid address exactly one cell, and the cell gives them back. */
  lemma CellAt(x: int, y: int, width: nat, height: nat)
    requires 0 <= x < width && 0 <= y < height
    ensures 0 <= Cell(x, y, width) < width * height
    ensures Column(Cell(x, y, width), width) == x && Row(Cell(x, y, width), width) == y
  {
    TimesMonotone(y + 1, height, width);
    TimesMonotone(0, y, width);
    DivModUnique(y * width + x, width, y, x);
  }

  lemma CellOf(i: int, width: nat, height: nat)
    requires 0 <= i < width * height
    ensures width > 0 && 0 <= Column(i, width) < width && 0 <= Row(i, width) < height
    ensures i == Cell(Column(i, width), Row(i, width), width)
  {
    assert width > 0;
    TimesMonotone(height, Row(i, width), width);
  }

  lemma TimesMonotone(a: int, b: int, width: nat)
    ensures a <= b ==> a * width <= b * width
  {
  }

  /** Cells follow each other along a row, and the row after. */
  lemma CellOrder(x: int, y: int, width: nat)
    ensures Cell(x + 1, y, width) == Cell(x, y, width) + 1
    ensures Cell(0, y + 1, width) == Cell(width, y, width)
    ensures Cell(0, y, width) == width * y
  {
  }

  lemma DivModUnique(n: int, d: int, q: int, r: int)
    requires 0 <= r < d && n == q * d + r
    ensures n / d == q && n % d == r
  {
    var k := q - n / d;
    assert k * d == n % d - r by {
      assert q * d - n / d * d == k * d;
    }
    assert k >= 1 ==> k * d >= d;
    assert k <= -1 ==> k * d <= -d;
  }

  datatype Grid = Grid(width: nat, height: nat, open: seq<bool>, diagonal: bool) {

    ghost predicate Valid() {
      width > 0 && |open| == width * height
    }

    ghost predicate Node(i: int) {
      0 <= i < |open| && open[i]
    }

    ghost predicate Near(i: int, j: int)
      requires Valid()
    {
      var dx, dy := Column(j, width) - Column(i, width), Row(j, width) - Row(i, width);
      -1 <= dx <= 1 && -1 <= dy <= 1 && (diagonal || dx == 0 || dy == 0)
    }

    ghost predicate Step(i: int, j: int)
      requires Valid()
    {
      Node(i) && Node(j) && Near(i, j)
    }

    ghost predicate IsPath(p: seq<int>)
      requires Valid()
    {
      |p| > 0 && Node(p[0]) && forall k :: 0 < k < |p| ==> Step(p[k - 1], p[k])
    }

    ghost predicate Joins(p: seq<int>, i: int, j: int)
      requires Valid()
    {
      IsPath(p) && p[0] == i && p[|p| - 1] == j
    }

    ghost predicate Connected(i: int, j: int)
      requires Valid()
    {
      exists p :: Joins(p, i, j)
    }

    ghost function Component(root: int): (s: set<int>)
      requires Valid()
      ensures forall j :: j in s <==> Connected(root, j)
    {
      assert forall j :: Connected(root, j) ==> 0 <= j < |open| by {
        forall j | Connected(root, j) ensures 0 <= j < |open| { ConnectedNodes(root, j); }
      }
      set j | 0 <= j < |open| && Connected(root, j)
    }

    lemma ConnectedNodes(i: int, j: int)
      requires Valid() && Connected(i, j)
      ensures Node(i) && Node(j)
    {
      var p :| Joins(p, i, j);
      if |p| > 1 { assert Step(p[|p| - 2], p[|p| - 1]); }
    }

    lemma Reflexive(i: int)
      requires Valid() && Node(i)
      ensures Connected(i, i)
    {
      assert Joins([i], i, i);
    }

    lemma Extend(i: int, j: int, k: int)
      requires Valid() && Connected(i, j) && Step(j, k)
      ensures Connected(i, k)
    {
      var p :| Joins(p, i, j);
      assert Joins(p + [k], i, k);
    }

    lemma Symmetric(i: int, j: int)
      requires Valid() && Connected(i, j)
      ensures Connected(j, i)
    {
      ConnectedNodes(i, j);
      var p :| Joins(p, i, j);
      var r := seq(|p|, k requires 0 <= k < |p| => p[|p| - 1 - k]);
      forall k | 0 < k < |r| ensures Step(r[k - 1], r[k]) {
        assert Step(p[|p| - 1 - k], p[|p| - k]);
      }
      assert Joins(r, j, i);
    }

    lemma Transitive(i: int, j: int, k: int)
      requires Valid() && Connected(i, j) && Connected(j, k)
      ensures Connected(i, k)
    {
      var p :| Joins(p, i, j);
      var q :| Joins(q, j, k);
      var r := p + q[1..];
      forall n | 0 < n < |r| ensures Step(r[n - 1], r[n]) {
        if n < |p| {
          assert Step(p[n - 1], p[n]);
        } else {
          assert Step(q[n - |p|], q[n - |p| + 1]);
        }
      }
      assert Joins(r, i, k);
    }

    /** No path leaves a set of cells that is closed under stepping. */
    lemma {:induction false} ClosedUnderPath(s: iset<int>, p: seq<int>)
      requires Valid() && IsPath(p) && p[0] in s
      requires forall a, b :: a in s && Step(a, b) ==> b in s
      ensures p[|p| - 1] in s
    {
      if |p| > 1 {
        assert Step(p[0], p[1]);
        var rest := p[1..];
        assert forall k :: 0 < k < |rest| ==> rest[k - 1] == p[k] && rest[k] == p[k + 1];
        ClosedUnderPath(s, rest);
      }
    }

    lemma ClosedUnderConnected(s: iset<int>, i: int, j: int)
      requires Valid() && Connected(i, j) && i in s
      requires forall a, b :: a in s && Step(a, b) ==> b in s
      ensures j in s
    {
      var p :| Joins(p, i, j);
      ClosedUnderPath(s, p);
    }

    /**
      A breadth-first queue in mid-flight: it starts at the root, holds no cell twice, holds only
      cells connected to the root, and every neighbour of a cell before `head` is already in it.
     */
    ghost predicate Wave(root: int, q: seq<int>, head: nat)
      requires Valid()
    {
      && head <= |q| && |q| > 0 && q[0] == root
      && (forall a, b :: 0 <= a < b < |q| ==> q[a] != q[b])
      && (forall k :: 0 <= k < |q| ==> Connected(root, q[k]))
      && (forall k, j :: 0 <= k < head && Step(q[k], j) ==> j in q)
    }

    lemma WaveStarts(root: int)
      requires Valid() && Node(root)
      ensures Wave(root, [root], 0)
    {
      Reflexive(root);
    }

    lemma WavePush(root: int, q: seq<int>, head: nat, current: int, next: int)
      requires Valid() && Wave(root, q, head) && current in q && Step(current, next) && next !in q
      ensures Wave(root, q + [next], head)
    {
      Extend(root, current, next);
    }

    /** A wave fits in an array with one place for each cell. */
    lemma WaveFits(root: int, q: seq<int>, head: nat)
      requires Valid() && Wave(root, q, head)
      ensures |q| <= |open|
    {
      forall k | 0 <= k < |q| ensures 0 <= q[k] < |open| { ConnectedNodes(root, q[k]); }
      DistinctBelow(q, |open|);
    }

    /** When the head has caught up with the tail, the queue is the root's whole component. */
    lemma WaveEnds(root: int, q: seq<int>)
      requires Valid() && Wave(root, q, |q|)
      ensures forall j :: j in q <==> j in Component(root)
      ensures |q| == |Component(root)|
    {
      var s := iset j | j in q;
      forall j | Connected(root, j) ensures j in q { ClosedUnderConnected(s, root, j); }
      DistinctSize(q);
      assert Component(root) == set j | j in q;
    }
  }

  lemma {:induction false} DistinctSize(q: seq<int>)
    requires forall a, b :: 0 <= a < b < |q| ==> q[a] != q[b]
    ensures |q| == |set j | j in q|
  {
    if q != [] {
      var rest, last := q[..|q| - 1], q[|q| - 1];
      DistinctSize(rest);
      assert (set j | j in q) == (set j | j in rest) + {last} by { assert q == rest + [last]; }
    }
  }

  function Below(n: nat): (s: set<int>)
    ensures |s| == n && forall j :: j in s <==> 0 <= j < n
  {
    if n == 0 then {} else Below(n - 1) + {n - 1}
  }

  lemma SubsetSize(a: set<int>, b: set<int>)
    requires a <= b
    ensures |a| <= |b|
  {
    assert b == a + (b - a);
  }

  lemma DistinctBelow(q: seq<int>, n: nat)
    requires forall a, b :: 0 <= a < b < |q| ==> q[a] != q[b]
    requires forall k :: 0 <= k < |q| ==> 0 <= q[k] < n
    ensures |q| <= n
  {
    var s := set j | j in q;
    DistinctSize(q);
    SubsetSize(s, Below(n));
  }
}
