/**
  Component labelling (raster-components.ts, extractShapes): one scan in raster order; each unlabelled
  dark pixel starts a breadth-first flood that labels its whole 8-connected component.
 */
module Components {
  import opened Outcomes
  import opened Numbers
  import opened Raster
  import opened Grids

  datatype Component = Component(id: int, minX: int, minY: int, maxX: int, maxY: int, size: int) {

    function Width(): int { maxX - minX + 1 }

    function Height(): int { maxY - minY + 1 }

    predicate Kept() {
      && Width() >= 6 && Height() >= 6 && size >= 12
      && MaxReal(Width() as real / Height() as real, Height() as real / Width() as real) <= 20.0
    }
  }

  datatype Labelling = Labelling(labels: seq<int>, components: seq<Component>)

  // ---------- What labelling means, without saying how it is done

  ghost function DarkGrid(source: Source, threshold: int): (g: Grid)
    requires source.Valid()
    ensures g.Valid()
  {
    Grid(source.width, source.height,
         seq(|source.data|, i requires 0 <= i < |source.data| => source.data[i] <= threshold), true)
  }

  /** The first pixel of a component in raster order. */
  ghost predicate IsRoot(g: Grid, i: int)
    requires g.Valid()
  {
    g.Node(i) && forall j :: g.Connected(i, j) ==> i <= j
  }

  /** The first pixels of all components that start among the first n cells, in raster order. */
  ghost function Roots(g: Grid, n: nat): (r: seq<int>)
    requires g.Valid() && n <= |g.open|
    ensures forall i :: i in r <==> 0 <= i < n && IsRoot(g, i)
    ensures forall a, b :: 0 <= a < b < |r| ==> r[a] < r[b]
  {
    if n == 0 then []
    else
      var earlier := Roots(g, n - 1);
      assert forall a :: 0 <= a < |earlier| ==> earlier[a] in earlier;
      earlier + if IsRoot(g, n - 1) then [n - 1] else []
  }

  lemma RootsGrow(g: Grid, m: nat, n: nat)
    requires g.Valid() && m <= n <= |g.open|
    ensures Roots(g, m) <= Roots(g, n)
  {
    if m < n { RootsGrow(g, m, n - 1); }
  }

  ghost predicate IsLeast(m: int, s: set<int>) {
    m in s && forall x :: x in s ==> m <= x
  }

  ghost predicate IsGreatest(m: int, s: set<int>) {
    m in s && forall x :: x in s ==> x <= m
  }

  ghost function Columns(s: set<int>, width: nat): set<int>
    requires width > 0
  {
    set j | j in s :: Column(j, width)
  }

  ghost function Rows(s: set<int>, width: nat): set<int>
    requires width > 0
  {
    set j | j in s :: Row(j, width)
  }

  /** The record of a component: its number, its tight bounding box and its number of pixels. */
  ghost predicate Describes(c: Component, g: Grid, root: int, id: int)
    requires g.Valid()
  {
    var s := g.Component(root);
    && c.id == id && c.size == |s|
    && IsLeast(c.minX, Columns(s, g.width)) && IsGreatest(c.maxX, Columns(s, g.width))
    && IsLeast(c.minY, Rows(s, g.width)) && IsGreatest(c.maxY, Rows(s, g.width))
  }

  /** Components are recorded in the order of their first pixels. */
  ghost predicate Census(g: Grid, roots: seq<int>, all: seq<Component>)
    requires g.Valid()
  {
    |all| == |roots| && forall k :: 0 <= k < |all| ==> Describes(all[k], g, roots[k], k + 1)
  }

  lemma CensusUnique(g: Grid, roots: seq<int>, a: seq<Component>, b: seq<Component>)
    requires g.Valid() && Census(g, roots, a) && Census(g, roots, b)
    ensures a == b
  {
    assert forall k :: 0 <= k < |a| ==> Describes(a[k], g, roots[k], k + 1) && Describes(b[k], g, roots[k], k + 1);
  }

  /** Label k + 1 marks exactly the component of the k-th root. */
  ghost predicate Labels(g: Grid, roots: seq<int>, labels: seq<int>)
    requires g.Valid()
  {
    && |labels| == |g.open|
    && (forall j :: 0 <= j < |labels| ==> 0 <= labels[j] <= |roots|)
    && (forall j, k :: 0 <= j < |labels| && 0 <= k < |roots| ==> (labels[j] == k + 1 <==> g.Connected(roots[k], j)))
  }

  /** `after` is `before` with the component of `root`, blank until now, labelled `id`. */
  ghost predicate Adds(g: Grid, root: int, before: seq<int>, after: seq<int>, id: int)
    requires g.Valid()
  {
    && |after| == |before|
    && (forall j :: 0 <= j < |after| ==> after[j] == if g.Connected(root, j) then id else before[j])
    && (forall j :: 0 <= j < |after| && before[j] != 0 ==> !g.Connected(root, j))
  }

  // ---------- The flood of one component

  /** `after` is `before` with the cells of q painted. */
  ghost predicate Painted(after: seq<int>, before: seq<int>, q: seq<int>, id: int) {
    |after| == |before| && forall j :: 0 <= j < |before| ==> after[j] == if j in q then id else before[j]
  }

  /** Nothing outside the labels drawn so far can be reached from inside them. */
  ghost predicate Closed(g: Grid, before: seq<int>)
    requires g.Valid()
  {
    |before| == |g.open| && forall i, j :: g.Step(i, j) && before[i] != 0 ==> before[j] != 0
  }

  ghost predicate Flooding(g: Grid, root: int, q: seq<int>, head: nat, before: seq<int>, labels: seq<int>, id: int)
    requires g.Valid()
  {
    && g.Wave(root, q, head) && Painted(labels, before, q, id) && id > 0
    && Closed(g, before) && (forall k :: 0 <= k < |q| ==> g.Node(q[k]) && before[q[k]] == 0)
  }

  lemma FloodNodes(g: Grid, root: int, q: seq<int>, head: nat, before: seq<int>, labels: seq<int>, id: int)
    requires g.Valid() && Flooding(g, root, q, head, before, labels, id)
    ensures forall j :: j in q ==> g.Node(j)
  {
  }

  lemma FloodPush(g: Grid, root: int, q: seq<int>, head: nat, before: seq<int>, labels: seq<int>, id: int,
                  current: int, next: int)
    requires g.Valid() && Flooding(g, root, q, head, before, labels, id)
    requires current in q && g.Step(current, next) && labels[next] == 0
    ensures Flooding(g, root, q + [next], head, before, labels[next := id], id)
    ensures |q| < |g.open|
  {
    g.WavePush(root, q, head, current, next);
    g.WaveFits(root, q + [next], head);
  }

  /** A neighbour met before the offset (dx, dy) in the double loop over offsets. */
  ghost predicate Met(g: Grid, current: int, j: int, dx: int, dy: int)
    requires g.Valid()
  {
    var ny := Row(j, g.width) - Row(current, g.width);
    g.Step(current, j) && (ny < dy || (ny == dy && Column(j, g.width) - Column(current, g.width) < dx))
  }

  /** The double loop starts with nothing met, carries on from row to row, and ends with every neighbour met. */
  lemma MeetingOrder(g: Grid, current: int)
    requires g.Valid() && g.Node(current)
    ensures forall j :: !Met(g, current, j, -1, -1)
    ensures forall j, dy :: Met(g, current, j, -1, dy + 1) ==> Met(g, current, j, 2, dy)
    ensures forall j :: g.Step(current, j) ==> Met(g, current, j, -1, 2)
  {
  }

  lemma OffGrid(g: Grid, current: int, dx: int, dy: int)
    requires g.Valid() && g.Node(current)
    requires var nx, ny := Column(current, g.width) + dx, Row(current, g.width) + dy;
             nx < 0 || ny < 0 || nx >= g.width || ny >= g.height
    ensures forall j :: Met(g, current, j, dx + 1, dy) ==> Met(g, current, j, dx, dy)
  {
    forall j | Met(g, current, j, dx + 1, dy) ensures Met(g, current, j, dx, dy) {
      CellOf(j, g.width, g.height);
    }
  }

  lemma OneNeighbour(g: Grid, current: int, next: int, dx: int, dy: int)
    requires g.Valid() && g.Node(current) && 0 <= next < |g.open| && g.diagonal && -1 <= dx <= 1 && -1 <= dy <= 1
    requires Column(next, g.width) == Column(current, g.width) + dx && Row(next, g.width) == Row(current, g.width) + dy
    ensures g.Node(next) ==> g.Step(current, next) && g.Step(next, current)
    ensures forall j :: Met(g, current, j, dx + 1, dy) ==> Met(g, current, j, dx, dy) || (j == next && g.Node(next))
  {
    hide Column, Row;
    forall j | Met(g, current, j, dx + 1, dy) && !Met(g, current, j, dx, dy) ensures j == next {
      SamePlace(g, next, j);
    }
  }

  lemma SamePlace(g: Grid, i: int, j: int)
    requires g.Valid() && 0 <= i < |g.open| && 0 <= j < |g.open|
    requires Column(i, g.width) == Column(j, g.width) && Row(i, g.width) == Row(j, g.width)
    ensures i == j
  {
    CellOf(i, g.width, g.height);
    CellOf(j, g.width, g.height);
  }

  method Visit(source: Source, threshold: int, labels: array<int>, queue: array<int>, next: int, tail: nat, id: int,
               ghost current: int, ghost root: int, ghost head: nat, ghost before: seq<int>)
    returns (newTail: nat)
    requires source.Valid() && labels != queue && labels.Length == queue.Length == |source.data| && tail <= queue.Length
    requires Flooding(DarkGrid(source, threshold), root, queue[..tail], head, before, labels[..], id)
    requires current in queue[..tail] && 0 <= next < |source.data|
    requires DarkGrid(source, threshold).Node(next) ==>
               DarkGrid(source, threshold).Step(current, next) && DarkGrid(source, threshold).Step(next, current)
    modifies labels, queue
    ensures tail <= newTail <= queue.Length && old(queue[..tail]) <= queue[..newTail]
    ensures Flooding(DarkGrid(source, threshold), root, queue[..newTail], head, before, labels[..], id)
    ensures DarkGrid(source, threshold).Node(next) ==> next in queue[..newTail]
  {
    ghost var g, q, painted := DarkGrid(source, threshold), queue[..tail], labels[..];
    newTail := tail;
    if labels[next] == 0 && source.data[next] <= threshold {
      FloodPush(g, root, q, head, before, painted, id, current, next);
      labels[next] := id;
      queue[newTail] := next;
      newTail := newTail + 1;
      assert queue[..newTail] == q + [next];
      assert labels[..] == painted[next := id];
    }
  }

  method VisitNeighbours(source: Source, threshold: int, labels: array<int>, queue: array<int>,
                         current: int, tail: nat, id: int, ghost root: int, ghost head: nat, ghost before: seq<int>)
    returns (newTail: nat)
    requires source.Valid() && labels != queue && labels.Length == queue.Length == |source.data| && tail <= queue.Length
    requires current in queue[..tail]
    requires Flooding(DarkGrid(source, threshold), root, queue[..tail], head, before, labels[..], id)
    modifies labels, queue
    ensures tail <= newTail <= queue.Length && old(queue[..tail]) <= queue[..newTail]
    ensures Flooding(DarkGrid(source, threshold), root, queue[..newTail], head, before, labels[..], id)
    ensures forall j :: DarkGrid(source, threshold).Step(current, j) ==> j in queue[..newTail]
  {
    hide Flooding, Met, Grid.Near, Column, Row, Cell;
    var width, height := source.width, source.height;
    ghost var g, start := DarkGrid(source, threshold), queue[..tail];
    assert g.Node(current) by { FloodNodes(g, root, start, head, before, labels[..], id); }
    CellOf(current, width, height);
    var x, y := Column(current, width), Row(current, width);
    newTail := tail;
    MeetingOrder(g, current);
    for dy := -1 to 2
      invariant tail <= newTail <= queue.Length && start <= queue[..newTail]
      invariant Flooding(g, root, queue[..newTail], head, before, labels[..], id)
      invariant forall j :: Met(g, current, j, -1, dy) ==> j in queue[..newTail]
    {
      for dx := -1 to 2
        invariant tail <= newTail <= queue.Length && start <= queue[..newTail]
        invariant Flooding(g, root, queue[..newTail], head, before, labels[..], id)
        invariant forall j :: Met(g, current, j, dx, dy) ==> j in queue[..newTail]
      {
        var nx, ny := x + dx, y + dy;
        if nx < 0 || ny < 0 || nx >= width || ny >= height {
          OffGrid(g, current, dx, dy);
          continue;
        }
        CellAt(nx, ny, width, height);
        OneNeighbour(g, current, Cell(nx, ny, width), dx, dy);
        ghost var seen := queue[..newTail];
        newTail := Visit(source, threshold, labels, queue, Cell(nx, ny, width), newTail, id, current, root, head,
                         before);
        assert seen <= queue[..newTail];
        assert forall j :: j in seen ==> j in queue[..newTail];
      }
    }
  }

  ghost predicate Spans(c: Component, width: nat, q: seq<int>, head: nat)
    requires width > 0 && head <= |q|
  {
    && (forall k :: 0 <= k < head ==> c.minX <= Column(q[k], width) <= c.maxX && c.minY <= Row(q[k], width) <= c.maxY)
    && (exists k :: 0 <= k < |q| && Column(q[k], width) == c.minX)
    && (exists k :: 0 <= k < |q| && Column(q[k], width) == c.maxX)
    && (exists k :: 0 <= k < |q| && Row(q[k], width) == c.minY)
    && (exists k :: 0 <= k < |q| && Row(q[k], width) == c.maxY)
  }

  lemma SpansDescribes(g: Grid, root: int, c: Component, q: seq<int>)
    requires g.Valid() && g.Wave(root, q, |q|) && Spans(c, g.width, q, |q|) && c.size == |q|
    ensures Describes(c, g, root, c.id)
  {
    g.WaveEnds(root, q);
    var s := g.Component(root);
    assert forall k :: 0 <= k < |q| ==> q[k] in s;
    assert forall j :: j in s ==> j in q;
  }

  function Include(c: Component, x: int, y: int): Component {
    Component(c.id, Min(c.minX, x), Min(c.minY, y), Max(c.maxX, x), Max(c.maxY, y), c.size + 1)
  }

  lemma SpansInclude(c: Component, width: nat, q: seq<int>, head: nat)
    requires width > 0 && head < |q| && Spans(c, width, q, head)
    ensures Spans(Include(c, Column(q[head], width), Row(q[head], width)), width, q, head + 1)
  {
  }

  lemma SpansGrow(c: Component, width: nat, q: seq<int>, longer: seq<int>, head: nat)
    requires width > 0 && head <= |q| && Spans(c, width, q, head) && q <= longer
    ensures Spans(c, width, longer, head)
  {
  }

  lemma FloodAdvance(g: Grid, root: int, q: seq<int>, head: nat, before: seq<int>, labels: seq<int>, id: int)
    requires g.Valid() && Flooding(g, root, q, head, before, labels, id) && head < |q|
    requires forall j :: g.Step(q[head], j) ==> j in q
    ensures Flooding(g, root, q, head + 1, before, labels, id) && |q| <= |g.open|
  {
    g.WaveFits(root, q, head);
  }

  /** When the flood has run dry, exactly the root's component was painted, and none of it was painted before. */
  lemma FloodEnds(g: Grid, root: int, q: seq<int>, before: seq<int>, labels: seq<int>, id: int)
    requires g.Valid() && Flooding(g, root, q, |q|, before, labels, id)
    ensures Adds(g, root, before, labels, id)
  {
    g.WaveEnds(root, q);
    forall j | 0 <= j < |labels| ensures j in q <==> g.Connected(root, j) {
      assert j in g.Component(root) <==> g.Connected(root, j);
    }
  }

  /** One turn of the flood: take the pixel at `head`, account for it, and queue its unlabelled dark neighbours. */
  method Dequeue(source: Source, threshold: int, labels: array<int>, queue: array<int>, head: nat, tail: nat,
                 component: Component, ghost root: int, ghost before: seq<int>)
    returns (newTail: nat, updated: Component)
    requires source.Valid() && labels != queue && labels.Length == queue.Length == |source.data|
    requires head < tail <= queue.Length
    requires Flooding(DarkGrid(source, threshold), root, queue[..tail], head, before, labels[..], component.id)
    requires Spans(component, source.width, queue[..tail], head) && component.size == head
    modifies labels, queue
    ensures head < newTail <= queue.Length
    ensures Flooding(DarkGrid(source, threshold), root, queue[..newTail], head + 1, before, labels[..], updated.id)
    ensures Spans(updated, source.width, queue[..newTail], head + 1)
    ensures updated.size == head + 1 && updated.id == component.id
  {
    ghost var g, q := DarkGrid(source, threshold), queue[..tail];
    var current := queue[head];
    SpansInclude(component, source.width, q, head);
    updated := Include(component, Column(current, source.width), Row(current, source.width));
    newTail := VisitNeighbours(source, threshold, labels, queue, current, tail, component.id, root, head, before);
    SpansGrow(updated, source.width, q, queue[..newTail], head + 1);
    FloodAdvance(g, root, queue[..newTail], head, before, labels[..], component.id);
  }

  method LabelComponent(source: Source, threshold: int, labels: array<int>, queue: array<int>, index: int, id: int)
    returns (component: Component)
    requires source.Valid() && labels != queue && labels.Length == queue.Length == |source.data|
    requires 0 <= index < |source.data| && source.data[index] <= threshold && labels[index] == 0 && id > 0
    requires Closed(DarkGrid(source, threshold), labels[..])
    modifies labels, queue
    ensures Describes(component, DarkGrid(source, threshold), index, id)
    ensures Adds(DarkGrid(source, threshold), index, old(labels[..]), labels[..], id)
  {
    var width := source.width;
    ghost var g, before := DarkGrid(source, threshold), labels[..];
    component := Component(id, Column(index, width), Row(index, width), Column(index, width), Row(index, width), 0);
    var head, tail := 0, 1;
    queue[0] := index;
    labels[index] := id;
    assert queue[..1] == [index] && labels[..] == before[index := id];
    g.WaveStarts(index);
    assert Spans(component, width, queue[..tail], head) by { assert queue[..tail][0] == index; }
    while head < tail
      invariant head <= tail <= queue.Length
      invariant Flooding(g, index, queue[..tail], head, before, labels[..], id)
      invariant Spans(component, width, queue[..tail], head) && component.id == id && component.size == head
      decreases queue.Length - head
    {
      tail, component := Dequeue(source, threshold, labels, queue, head, tail, component, index, before);
      head := head + 1;
    }
    SpansDescribes(g, index, component, queue[..tail]);
    FloodEnds(g, index, queue[..tail], before, labels[..], id);
  }

  // ---------- The whole scan

  lemma {:induction false} LeastExists(s: set<int>, x: int)
    requires x in s
    ensures exists m :: IsLeast(m, s)
  {
    if y :| y in s && y < x {
      LeastExists(s - {x}, y);
      var m :| IsLeast(m, s - {x});
      assert m <= y && forall z :: z in s ==> z == x || z in s - {x};
      assert IsLeast(m, s);
    } else {
      assert IsLeast(x, s);
    }
  }

  lemma {:induction false} GreatestExists(s: set<int>, x: int)
    requires x in s
    ensures exists m :: IsGreatest(m, s)
  {
    if y :| y in s && x < y {
      GreatestExists(s - {x}, y);
      var m :| IsGreatest(m, s - {x});
      assert y <= m && forall z :: z in s ==> z == x || z in s - {x};
      assert IsGreatest(m, s);
    } else {
      assert IsGreatest(x, s);
    }
  }

  ghost function Record(g: Grid, root: int, id: int): (c: Component)
    requires g.Valid() && g.Node(root)
    ensures Describes(c, g, root, id)
  {
    var s := g.Component(root);
    g.Reflexive(root);
    var xs, ys := Columns(s, g.width), Rows(s, g.width);
    LeastExists(xs, Column(root, g.width));
    LeastExists(ys, Row(root, g.width));
    GreatestExists(xs, Column(root, g.width));
    GreatestExists(ys, Row(root, g.width));
    var minX :| IsLeast(minX, xs);
    var maxX :| IsGreatest(maxX, xs);
    var minY :| IsLeast(minY, ys);
    var maxY :| IsGreatest(maxY, ys);
    Component(id, minX, minY, maxX, maxY, |s|)
  }

  /** The records of the components that start among the first n cells. */
  ghost function Survey(g: Grid, n: nat): (all: seq<Component>)
    requires g.Valid() && n <= |g.open|
    ensures Census(g, Roots(g, n), all)
  {
    var roots := Roots(g, n);
    assert forall k :: 0 <= k < |roots| ==> roots[k] in roots;
    seq(|roots|, k requires 0 <= k < |roots| => Record(g, roots[k], k + 1))
  }

  lemma SurveyGrows(g: Grid, m: nat, n: nat)
    requires g.Valid() && m <= n <= |g.open|
    ensures Survey(g, m) <= Survey(g, n) && Roots(g, m) <= Roots(g, n)
  {
    RootsGrow(g, m, n);
  }

  function KeptOf(all: seq<Component>): seq<Component> {
    Filter(all, (c: Component) => c.Kept())
  }

  ghost function DarkCount(g: Grid): nat {
    |set j | 0 <= j < |g.open| && g.open[j]|
  }

  /** The scan gives up when there are too many components, or too many of a useful size. */
  ghost predicate TooComplex(g: Grid)
    requires g.Valid()
  {
    |Roots(g, |g.open|)| > MAX_COMPONENTS || |KeptOf(Survey(g, |g.open|))| > MAX_CANDIDATES
  }

  ghost predicate TooDark(g: Grid)
    requires g.Valid() && |g.open| > 0
  {
    DarkCount(g) as real / |g.open| as real > 0.6
  }

  /** The finished labelling: every component labelled by its number, every useful one recorded. */
  ghost predicate Complete(g: Grid, l: Labelling)
    requires g.Valid()
  {
    Labels(g, Roots(g, |g.open|), l.labels) && l.components == KeptOf(Survey(g, |g.open|))
  }

  ghost function Inked(labels: seq<int>): set<int> {
    set j | 0 <= j < |labels| && labels[j] != 0
  }

  /** The state of the scan before cell `index`. */
  ghost predicate Scanned(g: Grid, index: nat, labels: seq<int>, count: int, dark: int)
    requires g.Valid()
  {
    && index <= |g.open| && count == |Roots(g, index)| && Labels(g, Roots(g, index), labels)
    && (forall j :: 0 <= j < index && g.Node(j) ==> labels[j] != 0)
    && (forall j :: 0 <= j < |labels| && labels[j] != 0 ==> g.Node(j))
    && dark == |Inked(labels)|
  }

  lemma ScannedClosed(g: Grid, index: nat, labels: seq<int>, count: int, dark: int)
    requires g.Valid() && Scanned(g, index, labels, count, dark)
    ensures Closed(g, labels) && count >= 0
  {
    var roots := Roots(g, index);
    forall i, j | g.Step(i, j) && labels[i] != 0 ensures labels[j] != 0 {
      var k := labels[i] - 1;
      g.Extend(roots[k], i, j);
      assert labels[j] == k + 1;
    }
  }

  /** A cell that is light or already labelled is not the first of its component. */
  lemma ScanSkip(g: Grid, index: nat, labels: seq<int>, count: int, dark: int)
    requires g.Valid() && Scanned(g, index, labels, count, dark) && index < |g.open|
    requires !g.open[index] || labels[index] != 0
    ensures Scanned(g, index + 1, labels, count, dark)
    ensures Roots(g, index + 1) == Roots(g, index) && Survey(g, index + 1) == Survey(g, index)
  {
    if labels[index] != 0 {
      var root := Roots(g, index)[labels[index] - 1];
      assert root in Roots(g, index) && g.Connected(root, index);
      g.Symmetric(root, index);
    }
  }

  /** An unlabelled dark cell is the first of its component. */
  lemma ScanRoot(g: Grid, index: nat, labels: seq<int>, count: int, dark: int)
    requires g.Valid() && Scanned(g, index, labels, count, dark) && index < |g.open|
    requires g.open[index] && labels[index] == 0
    ensures IsRoot(g, index) && Roots(g, index + 1) == Roots(g, index) + [index]
  {
    forall j | g.Connected(index, j) ensures index <= j {
      g.ConnectedNodes(index, j);
      if j < index {
        var root := Roots(g, index)[labels[j] - 1];
        assert g.Connected(root, j);
        g.Symmetric(index, j);
        g.Transitive(root, j, index);
        assert false;
      }
    }
  }

  lemma SurveyOne(g: Grid, index: nat, c: Component)
    requires g.Valid() && index < |g.open| && IsRoot(g, index) && Describes(c, g, index, |Roots(g, index)| + 1)
    ensures Survey(g, index + 1) == Survey(g, index) + [c]
    ensures KeptOf(Survey(g, index + 1)) == KeptOf(Survey(g, index)) + if c.Kept() then [c] else []
  {
    var all := Survey(g, index) + [c];
    CensusUnique(g, Roots(g, index + 1), Survey(g, index + 1), all);
    assert all[..|all| - 1] == Survey(g, index);
  }

  lemma KeptGrow(g: Grid, n: nat)
    requires g.Valid() && n <= |g.open|
    ensures |KeptOf(Survey(g, n))| <= |KeptOf(Survey(g, |g.open|))|
  {
    SurveyGrows(g, n, |g.open|);
    var all := Survey(g, |g.open|);
    assert all[..|Survey(g, n)|] == Survey(g, n);
    FilterPrefix(all, |Survey(g, n)|, (c: Component) => c.Kept());
  }

  lemma ScanPaint(g: Grid, index: nat, before: seq<int>, after: seq<int>, count: int, dark: int)
    requires g.Valid() && Scanned(g, index, before, count, dark) && index < |g.open|
    requires g.open[index] && before[index] == 0 && Adds(g, index, before, after, count + 1)
    ensures Labels(g, Roots(g, index) + [index], after)
    ensures forall j :: 0 <= j < |after| && after[j] != 0 ==> g.Node(j)
    ensures |Inked(after)| == dark + |g.Component(index)|
  {
    forall j | 0 <= j < |after| && g.Connected(index, j) ensures g.Node(j) { g.ConnectedNodes(index, j); }
    var roots := Roots(g, index);
    forall j, k | 0 <= j < |after| && 0 <= k < |roots| ensures after[j] == k + 1 <==> g.Connected(roots[k], j) {
      assert before[j] == k + 1 <==> g.Connected(roots[k], j);
    }
    forall j | j in g.Component(index) ensures 0 <= j < |after| { g.ConnectedNodes(index, j); }
    assert Inked(after) == Inked(before) + g.Component(index);
    assert Inked(before) !! g.Component(index);
  }

  lemma ScanAdd(g: Grid, index: nat, before: seq<int>, after: seq<int>, count: int, dark: int, c: Component)
    requires g.Valid() && Scanned(g, index, before, count, dark) && index < |g.open|
    requires g.open[index] && before[index] == 0 && Adds(g, index, before, after, count + 1)
    requires Describes(c, g, index, count + 1)
    ensures Scanned(g, index + 1, after, count + 1, dark + c.size)
    ensures KeptOf(Survey(g, index + 1)) == KeptOf(Survey(g, index)) + if c.Kept() then [c] else []
  {
    hide Survey, KeptOf;
    ScanRoot(g, index, before, count, dark);
    ScanPaint(g, index, before, after, count, dark);
    g.Reflexive(index);
    SurveyOne(g, index, c);
  }

  lemma ScanStarts(g: Grid, labels: seq<int>)
    requires g.Valid() && |labels| == |g.open| && forall j :: 0 <= j < |labels| ==> labels[j] == 0
    ensures Scanned(g, 0, labels, 0, 0) && KeptOf(Survey(g, 0)) == []
  {
    assert Inked(labels) == {};
  }

  lemma ManyRoots(g: Grid, index: nat, labels: seq<int>, count: int, dark: int)
    requires g.Valid() && Scanned(g, index, labels, count, dark) && index < |g.open|
    requires g.open[index] && labels[index] == 0
    ensures count < |Roots(g, |g.open|)|
  {
    hide Labels, Inked;
    ScanRoot(g, index, labels, count, dark);
    RootsGrow(g, index + 1, |g.open|);
  }

  lemma ScanEnds(g: Grid, labels: seq<int>, components: seq<Component>, count: int, dark: int)
    requires g.Valid() && Scanned(g, |g.open|, labels, count, dark) && components == KeptOf(Survey(g, |g.open|))
    requires count <= MAX_COMPONENTS && |components| <= MAX_CANDIDATES
    ensures !TooComplex(g) && Complete(g, Labelling(labels, components)) && dark == DarkCount(g)
  {
    assert Inked(labels) == set j | 0 <= j < |g.open| && g.open[j];
  }

  /** One turn of the scan: skip the pixel, or label the component that it starts and keep it if it is useful. */
  method ScanPixel(source: Source, threshold: int, labels: array<int>, queue: array<int>,
                   index: int, components: seq<Component>, count: int, dark: int)
    returns (r: Result<seq<Component>, ErrorCode>, newCount: int, newDark: int)
    requires source.Valid() && labels != queue && labels.Length == queue.Length == |source.data|
    requires 0 <= index < |source.data|
    requires Scanned(DarkGrid(source, threshold), index, labels[..], count, dark)
    requires components == KeptOf(Survey(DarkGrid(source, threshold), index))
    requires count <= MAX_COMPONENTS && |components| <= MAX_CANDIDATES
    modifies labels, queue
    ensures r.Err? ==> r.error == SourceTooComplex && TooComplex(DarkGrid(source, threshold))
    ensures r.Ok? ==>
      && Scanned(DarkGrid(source, threshold), index + 1, labels[..], newCount, newDark)
      && r.value == KeptOf(Survey(DarkGrid(source, threshold), index + 1))
      && newCount <= MAX_COMPONENTS && |r.value| <= MAX_CANDIDATES
  {
    hide Labels, Roots, Survey, KeptOf, Inked, Scanned, Complete;
    ghost var g, before := DarkGrid(source, threshold), labels[..];
    if source.data[index] > threshold || labels[index] != 0 {
      ScanSkip(g, index, before, count, dark);
      return Ok(components), count, dark;
    }
    if count + 1 > MAX_COMPONENTS {
      ManyRoots(g, index, before, count, dark);
      return Err(SourceTooComplex), count + 1, dark;
    }
    ScannedClosed(g, index, before, count, dark);
    var component := LabelComponent(source, threshold, labels, queue, index, count + 1);
    ScanAdd(g, index, before, labels[..], count, dark, component);
    newCount, newDark := count + 1, dark + component.size;
    var kept := components + if component.Kept() then [component] else [];
    r := Ok(kept);
    if |kept| > MAX_CANDIDATES {
      KeptGrow(g, index + 1);
      r := Err(SourceTooComplex);
    }
  }

  method Scan(source: Source, threshold: int) returns (r: Result<Labelling, ErrorCode>, darkCount: int)
    requires source.Valid()
    ensures r == Err(SourceTooComplex) || r.Ok?
    ensures r.Ok? <==> !TooComplex(DarkGrid(source, threshold))
    ensures r.Ok? ==>
      Complete(DarkGrid(source, threshold), r.value) && darkCount == DarkCount(DarkGrid(source, threshold))
  {
    hide Labels, Roots, Survey, KeptOf, Inked, TooComplex, Complete;
    ghost var g := DarkGrid(source, threshold);
    var labels, queue := new int[|source.data|](_ => 0), new int[|source.data|](_ => 0);
    var components: seq<Component> := [];
    var componentCount := 0;
    darkCount := 0;
    ScanStarts(g, labels[..]);
    for index := 0 to |source.data|
      invariant Scanned(g, index, labels[..], componentCount, darkCount)
      invariant components == KeptOf(Survey(g, index))
      invariant componentCount <= MAX_COMPONENTS && |components| <= MAX_CANDIDATES
    {
      var kept;
      kept, componentCount, darkCount :=
        ScanPixel(source, threshold, labels, queue, index, components, componentCount, darkCount);
      if kept.Err? {
        return Err(kept.error), darkCount;
      }
      components := kept.value;
    }
    ScanEnds(g, labels[..], components, componentCount, darkCount);
    r := Ok(Labelling(labels[..], components));
  }

  method LabelComponents(source: Source, threshold: int) returns (r: Result<Labelling, ErrorCode>)
    requires source.Valid()
    ensures var g := DarkGrid(source, threshold);
      if TooComplex(g) then r == Err(SourceTooComplex)
      else if TooDark(g) then r == Err(UnsupportedContrast)
      else r.Ok? && Complete(g, r.value)
  {
    CellAt(0, 0, source.width, source.height);
    var darkCount;
    r, darkCount := Scan(source, threshold);
    if r.Ok? && darkCount as real / |source.data| as real > 0.6 {
      r := Err(UnsupportedContrast);
    }
  }

  // ---------- What a complete labelling says about pixels

  lemma RootOf(g: Grid, i: int) returns (root: int)
    requires g.Valid() && g.Node(i)
    ensures IsRoot(g, root) && g.Connected(root, i)
  {
    g.Reflexive(i);
    LeastExists(g.Component(i), i);
    root :| IsLeast(root, g.Component(i));
    g.ConnectedNodes(i, root);
    forall j | g.Connected(root, j) ensures root <= j {
      g.Transitive(i, root, j);
      assert j in g.Component(i);
    }
    g.Symmetric(i, root);
  }

  lemma LabelledWhenDark(g: Grid, labels: seq<int>, i: nat)
    requires g.Valid() && Labels(g, Roots(g, |g.open|), labels) && i < |labels|
    ensures labels[i] != 0 <==> g.Node(i)
  {
    var roots := Roots(g, |g.open|);
    if g.Node(i) {
      var root := RootOf(g, i);
      assert root in roots;
      var k :| 0 <= k < |roots| && roots[k] == root;
      assert labels[i] == k + 1;
    } else if labels[i] != 0 {
      g.ConnectedNodes(roots[labels[i] - 1], i);
    }
  }

  lemma SharedWhenJoined(g: Grid, labels: seq<int>, i: nat, j: nat)
    requires g.Valid() && Labels(g, Roots(g, |g.open|), labels) && i < |labels| && j < |labels| && labels[i] != 0
    ensures labels[i] == labels[j] <==> g.Connected(i, j)
  {
    var root := Roots(g, |g.open|)[labels[i] - 1];
    assert g.Connected(root, i);
    if g.Connected(i, j) {
      g.Transitive(root, i, j);
    } else if labels[i] == labels[j] {
      g.Symmetric(root, i);
      g.Transitive(i, root, j);
    }
  }

  /** Dark pixels, each in a column and a row at most one from those of the pixel before. */
  predicate IsDarkPath(source: Source, threshold: int, p: seq<int>)
    requires source.Valid()
  {
    && |p| > 0 && (forall k :: 0 <= k < |p| ==> 0 <= p[k] < |source.data| && source.data[p[k]] <= threshold)
    && forall k :: 0 < k < |p| ==>
         && -1 <= p[k] % source.width - p[k - 1] % source.width <= 1
         && -1 <= p[k] / source.width - p[k - 1] / source.width <= 1
  }

  ghost predicate DarkJoined(source: Source, threshold: int, i: int, j: int)
    requires source.Valid()
  {
    exists p :: IsDarkPath(source, threshold, p) && p[0] == i && p[|p| - 1] == j
  }

  lemma ConnectedMeans(source: Source, threshold: int, i: int, j: int)
    requires source.Valid()
    ensures DarkGrid(source, threshold).Connected(i, j) <==> DarkJoined(source, threshold, i, j)
  {
    var g := DarkGrid(source, threshold);
    forall p ensures g.IsPath(p) <==> IsDarkPath(source, threshold, p) { PathMeans(source, threshold, p); }
    if g.Connected(i, j) { var p :| g.Joins(p, i, j); }
    if DarkJoined(source, threshold, i, j) {
      var p :| IsDarkPath(source, threshold, p) && p[0] == i && p[|p| - 1] == j;
      assert g.Joins(p, i, j);
    }
  }

  lemma PathMeans(source: Source, threshold: int, p: seq<int>)
    requires source.Valid()
    ensures DarkGrid(source, threshold).IsPath(p) <==> IsDarkPath(source, threshold, p)
  {
    var g := DarkGrid(source, threshold);
    if g.IsPath(p) {
      forall k | 0 <= k < |p| ensures g.Node(p[k]) { assert k > 0 ==> g.Step(p[k - 1], p[k]); }
      forall k | 0 < k < |p| ensures g.Near(p[k - 1], p[k]) { assert g.Step(p[k - 1], p[k]); }
    }
  }

  /** A pixel is labelled iff it is dark, and dark pixels share a label iff a path of dark neighbours joins them. */
  lemma LabelsAreComponents(source: Source, threshold: int, l: Labelling)
    requires source.Valid() && Complete(DarkGrid(source, threshold), l)
    ensures |l.labels| == |source.data|
    ensures forall i :: 0 <= i < |l.labels| ==> (l.labels[i] != 0 <==> source.data[i] <= threshold)
    ensures forall i, j :: 0 <= i < |l.labels| && 0 <= j < |l.labels| && l.labels[i] != 0 ==>
      (l.labels[i] == l.labels[j] <==> DarkJoined(source, threshold, i, j))
  {
    hide Roots, Survey, KeptOf, Grid.Connected, DarkJoined;
    var g := DarkGrid(source, threshold);
    forall i | 0 <= i < |l.labels| ensures l.labels[i] != 0 <==> g.Node(i) { LabelledWhenDark(g, l.labels, i); }
    forall i, j | 0 <= i < |l.labels| && 0 <= j < |l.labels| && l.labels[i] != 0
      ensures l.labels[i] == l.labels[j] <==> DarkJoined(source, threshold, i, j)
    {
      SharedWhenJoined(g, l.labels, i, j);
      ConnectedMeans(source, threshold, i, j);
    }
  }

  ghost function TotalSize(all: seq<Component>): int {
    if all == [] then 0 else TotalSize(all[..|all| - 1]) + all[|all| - 1].size
  }

  /** Cell j lies in a component that starts among the first n cells. */
  ghost predicate Reached(g: Grid, n: nat, j: int)
    requires g.Valid() && n <= |g.open|
  {
    exists root :: root in Roots(g, n) && g.Connected(root, j)
  }

  ghost function Covered(g: Grid, n: nat): set<int>
    requires g.Valid() && n <= |g.open|
  {
    set j | 0 <= j < |g.open| && Reached(g, n, j)
  }

  lemma CoveredStep(g: Grid, n: nat)
    requires g.Valid() && n < |g.open|
    ensures Covered(g, n + 1) == Covered(g, n) + if IsRoot(g, n) then g.Component(n) else {}
    ensures IsRoot(g, n) ==> Covered(g, n) !! g.Component(n)
  {
    forall j | g.Connected(n, j) && IsRoot(g, n) ensures 0 <= j < |g.open| && !Reached(g, n, j) {
      g.ConnectedNodes(n, j);
      g.Symmetric(n, j);
      if root :| root in Roots(g, n) && g.Connected(root, j) {
        g.Transitive(root, j, n);
        g.Symmetric(root, n);
        assert false;
      }
    }
    forall j | 0 <= j < |g.open|
      ensures Reached(g, n + 1, j) <==> Reached(g, n, j) || (IsRoot(g, n) && g.Connected(n, j))
    {
      assert forall root :: root in Roots(g, n + 1) <==> root in Roots(g, n) || (root == n && IsRoot(g, n));
    }
  }

  lemma SurveyStep(g: Grid, n: nat)
    requires g.Valid() && n < |g.open|
    ensures TotalSize(Survey(g, n + 1)) == TotalSize(Survey(g, n)) + if IsRoot(g, n) then |g.Component(n)| else 0
  {
    if IsRoot(g, n) {
      var c := Record(g, n, |Roots(g, n)| + 1);
      SurveyOne(g, n, c);
      assert (Survey(g, n) + [c])[..|Survey(g, n)|] == Survey(g, n);
    } else {
      assert Survey(g, n + 1) == Survey(g, n);
    }
  }

  lemma NothingCovered(g: Grid)
    requires g.Valid()
    ensures TotalSize(Survey(g, 0)) == |Covered(g, 0)|
  {
    assert Covered(g, 0) == {};
  }

  lemma {:induction false} SizesCover(g: Grid, n: nat)
    requires g.Valid() && n <= |g.open|
    ensures TotalSize(Survey(g, n)) == |Covered(g, n)|
  {
    hide *;
    if n == 0 {
      NothingCovered(g);
    } else {
      SizesCover(g, n - 1);
      CoveredStep(g, n - 1);
      SurveyStep(g, n - 1);
    }
  }

  /** Every dark pixel is counted in exactly one component. */
  lemma SizesSumToDarkCount(g: Grid)
    requires g.Valid()
    ensures TotalSize(Survey(g, |g.open|)) == DarkCount(g)
  {
    SizesCover(g, |g.open|);
    forall j | g.Node(j) ensures j in Covered(g, |g.open|) {
      var root := RootOf(g, j);
      assert root in Roots(g, |g.open|);
    }
    forall j | j in Covered(g, |g.open|) ensures g.Node(j) {
      var root :| root in Roots(g, |g.open|) && g.Connected(root, j);
      g.ConnectedNodes(root, j);
    }
    assert Covered(g, |g.open|) == set j | 0 <= j < |g.open| && g.open[j];
  }
}
