/** What every interpretation keeps: a partition into kinds, exact seat counts, nearest tables, a forest of parents. */
module InterpreterProperties {
  import opened Outcomes
  import opened Raster
  import opened Containment
  import opened StableSort
  import opened Interpreter

  ghost predicate DistinctIds(s: Bodies) {
    forall a, b :: 0 <= a < b < |s| ==> s[a].id != s[b].id
  }

  lemma {:induction false} FilterKeepsIdsDistinct(s: Bodies, keep: Body -> bool)
    requires DistinctIds(s)
    ensures DistinctIds(Filter(s, keep))
  {
    if s != [] {
      var rest := s[..|s| - 1];
      FilterKeepsIdsDistinct(rest, keep);
      var r := Filter(rest, keep);
      forall k | 0 <= k < |r| ensures r[k].id != s[|s| - 1].id {
        assert r[k] in r && r[k] in rest;
      }
    }
  }

  lemma IdIsMembership(scene: Scene, s: Bodies, c: Body)
    requires scene.Valid() && c in scene.candidates && forall x :: x in s ==> x in scene.candidates
    ensures HasId(s, c.id) <==> c in s
  {
    if HasId(s, c.id) {
      var k :| 0 <= k < |s| && s[k].id == c.id;
      assert s[k] in s && s[k] in scene.candidates;
    }
  }

  lemma MembersHaveIds(s: Bodies)
    ensures forall c :: c in s ==> HasId(s, c.id)
  {
  }

  lemma SameId(scene: Scene, a: Body, b: Body)
    requires scene.Valid() && a in scene.candidates && b in scene.candidates && a.id == b.id
    ensures a == b
  {
  }

  lemma SeatsAreRemaining(scene: Scene)
    ensures forall c :: c in scene.Seats() ==> c in scene.Remaining()
  {
  }

  // ---------- Kinds

  /** Every candidate has the kind of the one list that it is in. */
  lemma KindsPartition(scene: Scene, c: Body)
    requires scene.Valid() && c in scene.candidates
    ensures scene.KindOf(c) == SectionKind <==> c in scene.Sections()
    ensures scene.KindOf(c) == TableKind <==> c in scene.Tables()
    ensures scene.KindOf(c) == SeatKind <==> c in scene.Seats()
    ensures c in scene.Sections() ==> c !in scene.Tables() && c !in scene.Seats()
    ensures c in scene.Tables() ==> c !in scene.Seats()
  {
    SeatsAreRemaining(scene);
    IdIsMembership(scene, scene.Sections(), c);
    IdIsMembership(scene, scene.Seats(), c);
    IdIsMembership(scene, scene.Tables(), c);
  }

  lemma LargerFamilyIsStrictWeak(scene: Scene)
    ensures StrictWeak((a: Body, b: Body) => scene.LargerFamily(a, b))
  {
  }

  /** The seats are one family of similar shapes: the largest, and of the largest the one around the smallest shape. */
  lemma SeatsAreLargestFamily(scene: Scene)
    ensures scene.Seats() != [] ==> exists c ::
      c in scene.Remaining() && scene.Seats() == scene.Family(c) && |scene.Family(c)| >= 3
      && forall other :: other in scene.Remaining() ==> !scene.LargerFamily(other, c)
    ensures scene.Seats() == [] ==> forall other :: other in scene.Remaining() ==> |scene.Family(other)| < 3
  {
    var less := (a: Body, b: Body) => scene.LargerFamily(a, b);
    var ranked := Sort(scene.Remaining(), less);
    LargerFamilyIsStrictWeak(scene);
    SortSorted(scene.Remaining(), less);
    SortMembers(scene.Remaining(), less);
    if ranked != [] {
      var c := ranked[0];
      assert c in ranked;
      forall other | other in scene.Remaining() ensures !scene.LargerFamily(other, c) {
        assert other in ranked;
        var k :| 0 <= k < |ranked| && ranked[k] == other;
        assert k == 0 || !less(ranked[k], ranked[0]);
      }
    }
  }

  // ---------- Tables

  lemma CloserIsStrictWeak(scene: Scene, seat: Body)
    ensures StrictWeak((a: Body, b: Body) => scene.Closer(seat, a, b))
  {
  }

  /** The nearby tables, nearest first. */
  lemma NearbyIsSorted(scene: Scene, seat: Body)
    ensures forall t :: t in scene.Nearby(seat) <==> t in scene.Tables() && scene.Near(t, seat)
    ensures forall i, j :: 0 <= i < j < |scene.Nearby(seat)| ==>
      !scene.Closer(seat, scene.Nearby(seat)[j], scene.Nearby(seat)[i])
  {
    var near := Filter(scene.Tables(), (table: Body) => scene.Near(table, seat));
    var less := (a: Body, b: Body) => scene.Closer(seat, a, b);
    CloserIsStrictWeak(scene, seat);
    SortSorted(near, less);
    SortMembers(near, less);
    forall i, j | 0 <= i < j < |scene.Nearby(seat)|
      ensures !scene.Closer(seat, scene.Nearby(seat)[j], scene.Nearby(seat)[i])
    {
      assert !less(Sort(near, less)[j], Sort(near, less)[i]);
    }
  }

  /** A definite table is strictly nearer than every other table that is large enough and not around the seat. */
  lemma DefiniteIsNearest(scene: Scene, seat: Body, other: Body)
    requires scene.RelationOf(seat).Definite?
    requires other in scene.Tables() && other != scene.RelationOf(seat).table
    requires FourTimes(other, seat) && scene.BodyGap(other, seat).Some?
    ensures var table := scene.RelationOf(seat).table;
      && table in scene.Tables() && scene.Near(table, seat)
      && scene.BodyGap(table, seat).value < scene.BodyGap(other, seat).value
  {
    hide Scene.Tables, Scene.Nearby, Scene.BodyGap;
    NearbyIsSorted(scene, seat);
    var nearby := scene.Nearby(seat);
    assert nearby[0] in nearby;
    assert Diameter(seat) > 0.0;
    if scene.Near(other, seat) {
      var k :| 0 <= k < |nearby| && nearby[k] == other;
      assert nearby[1] in nearby;
      assert k == 1 || !scene.Closer(seat, nearby[k], nearby[1]);
    }
  }

  lemma DefiniteIsTable(scene: Scene, c: Body)
    requires scene.Relating(c).Definite?
    ensures scene.Relating(c).table in scene.Tables() && scene.Near(scene.Relating(c).table, c)
  {
    NearbyIsSorted(scene, c);
    assert scene.Nearby(c)[0] in scene.Nearby(c);
  }

  lemma EnclosingIsSection(scene: Scene, c: Body)
    ensures forall s :: s in scene.Enclosing(c) <==> s in scene.Sections() && s.id != c.id && Contains(s, c)
    ensures scene.Enclosing(c) != [] ==> forall s :: s in scene.Enclosing(c) ==> Area(scene.Enclosing(c)[0]) <= Area(s)
  {
    var around := Filter(scene.Sections(), (s: Body) => s.id != c.id && Contains(s, c));
    var less := (a: Body, b: Body) => Area(a) < Area(b);
    SortSorted(around, less);
    SortMembers(around, less);
    assert forall i, j :: 0 <= i < j < |Sort(around, less)| ==> !less(Sort(around, less)[j], Sort(around, less)[i]);
  }

  lemma CandidatesOf(scene: Scene)
    ensures forall c :: c in scene.Sections() || c in scene.Tables() || c in scene.Seats() ==> c in scene.candidates
    ensures forall c :: c in scene.Tables() ==> c !in scene.Sections()
  {
    SeatsAreRemaining(scene);
    MembersHaveIds(scene.Sections());
  }

  // ---------- Parents

  ghost predicate Parent(scene: Scene, child: Body, parent: Body)
    requires scene.imageWidth > 0 && scene.imageHeight > 0
  {
    child in scene.candidates && parent in scene.candidates && scene.ElementOf(child).parent == Some(parent.id)
  }

  /** Every parent is a table that the seat definitely belongs to, or the tightest section around the child. */
  lemma ParentMeaning(scene: Scene, child: Body, parent: Body)
    requires scene.Valid() && Parent(scene, child, parent)
    ensures parent in scene.Tables() ==> scene.Relating(child) == Definite(parent)
    ensures parent !in scene.Tables() ==>
      && parent in scene.Sections() && Contains(parent, child)
      && forall s :: s in scene.Sections() && s.id != child.id && Contains(s, child) ==> Area(parent) <= Area(s)
  {
    hide Scene.Tables, Scene.Sections, Scene.Relating, Scene.KindOf, Scene.Enclosing, Scene.Valid, Contains;
    CandidatesOf(scene);
    EnclosingIsSection(scene, child);
    if scene.Relating(child).Definite? {
      DefiniteIsTable(scene, child);
      SameId(scene, parent, scene.Relating(child).table);
    } else {
      assert scene.Enclosing(child)[0] in scene.Enclosing(child);
      SameId(scene, parent, scene.Enclosing(child)[0]);
    }
  }

  /** No parent id dangles. */
  lemma ParentExists(scene: Scene, child: Body)
    requires scene.Valid() && child in scene.candidates && scene.ElementOf(child).parent.Some?
    ensures exists parent :: Parent(scene, child, parent)
  {
    hide Scene.Tables, Scene.Sections, Scene.RelationOf, Scene.KindOf;
    CandidatesOf(scene);
    EnclosingIsSection(scene, child);
    if scene.Relating(child).Definite? {
      DefiniteIsTable(scene, child);
      assert Parent(scene, child, scene.Relating(child).table);
    } else {
      assert scene.Enclosing(child)[0] in scene.Enclosing(child);
      assert Parent(scene, child, scene.Enclosing(child)[0]);
    }
  }

  lemma AreaPositive(c: Body)
    ensures Area(c) > 0.0
  {
    SmallerBox(c.width / 2.0, c.height / 2.0, c.width, c.height);
    assert (c.width / 2.0) * (c.height / 2.0) * 4.0 == Area(c);
  }

  lemma ParentIsLarger(scene: Scene, child: Body, parent: Body)
    requires scene.Valid() && Parent(scene, child, parent)
    ensures Area(child) < Area(parent)
  {
    hide Scene.Tables, Scene.Sections, Scene.RelationOf, Scene.KindOf, Area;
    ParentMeaning(scene, child, parent);
    if parent in scene.Tables() {
      DefiniteIsTable(scene, child);
      AreaPositive(child);
    } else {
      ContainsShrinksArea(parent, child);
    }
  }

  ghost predicate Chain(scene: Scene, p: Bodies)
    requires scene.imageWidth > 0 && scene.imageHeight > 0
  {
    forall k :: 0 < k < |p| ==> Parent(scene, p[k - 1], p[k])
  }

  /** Areas grow along every chain of parents, so no chain returns to where it started. */
  lemma {:induction false} ParentsFormForest(scene: Scene, p: Bodies)
    requires scene.Valid() && |p| > 1 && Chain(scene, p)
    ensures Area(p[0]) < Area(p[|p| - 1]) && p[0] != p[|p| - 1]
  {
    var init := p[..|p| - 1];
    ParentIsLarger(scene, p[|p| - 2], p[|p| - 1]);
    if |init| > 1 { ParentsFormForest(scene, init); }
  }

  /** Every section on a chain of section parents contains the element that the chain starts from. */
  lemma {:induction false} SectionsOnChainContain(scene: Scene, p: Bodies)
    requires scene.Valid() && |p| > 1 && Chain(scene, p)
    requires forall k :: 0 < k < |p| ==> p[k] in scene.Sections()
    ensures Contains(p[|p| - 1], p[0])
  {
    hide Scene.Tables, Scene.Sections, Scene.ElementOf, Contains;
    CandidatesOf(scene);
    var init := p[..|p| - 1];
    ParentMeaning(scene, p[|p| - 2], p[|p| - 1]);
    if |init| > 1 {
      SectionsOnChainContain(scene, init);
      ContainsTransitive(p[|p| - 1], p[|p| - 2], p[0]);
    }
  }

  // ---------- Counts

  lemma SitsAtMeansParent(scene: Scene, c: Body, table: Body)
    requires scene.Valid() && c in scene.candidates && table in scene.Tables()
    ensures scene.SitsAt(c, table.id) <==>
      scene.ElementOf(c).kind == SeatKind && scene.ElementOf(c).parent == Some(table.id)
  {
    hide Scene.Tables, Scene.Sections, Scene.RelationOf, Scene.KindOf;
    CandidatesOf(scene);
    if scene.ElementOf(c).parent == Some(table.id) {
      assert Parent(scene, c, table);
      ParentMeaning(scene, c, table);
    }
  }

  ghost function SeatsWithParent(scene: Scene, table: string, n: nat): set<int>
    requires scene.imageWidth > 0 && scene.imageHeight > 0 && n <= |scene.candidates|
  {
    set k | 0 <= k < n && scene.ElementOf(scene.candidates[k]).kind == SeatKind
                       && scene.ElementOf(scene.candidates[k]).parent == Some(table)
  }

  /** A table's seat count is the number of SEAT elements whose parent is that table. */
  lemma {:induction false} SeatCountIsExact(scene: Scene, table: Body, n: nat)
    requires scene.Valid() && table in scene.Tables() && n <= |scene.candidates|
    ensures scene.SeatsAt(table.id, n) == |SeatsWithParent(scene, table.id, n)|
  {
    hide Scene.Tables, Scene.SitsAt, Scene.ElementOf;
    if n == 0 {
      assert SeatsWithParent(scene, table.id, 0) == {};
    } else {
      SeatCountIsExact(scene, table, n - 1);
      SitsAtMeansParent(scene, scene.candidates[n - 1], table);
      OneMoreWithParent(scene, table.id, n - 1);
    }
  }

  lemma OneMoreWithParent(scene: Scene, table: string, n: nat)
    requires scene.imageWidth > 0 && scene.imageHeight > 0 && n < |scene.candidates|
    ensures var element := scene.ElementOf(scene.candidates[n]);
      var hit := element.kind == SeatKind && element.parent == Some(table);
      |SeatsWithParent(scene, table, n + 1)| == |SeatsWithParent(scene, table, n)| + if hit then 1 else 0
  {
    hide Scene.ElementOf;
    var element := scene.ElementOf(scene.candidates[n]);
    assert SeatsWithParent(scene, table, n + 1) == SeatsWithParent(scene, table, n)
      + if element.kind == SeatKind && element.parent == Some(table) then {n} else {};
  }

  function CountWhere(cs: Bodies, n: nat, counted: Body -> bool): nat
    requires n <= |cs|
  {
    if n == 0 then 0 else CountWhere(cs, n - 1, counted) + if counted(cs[n - 1]) then 1 else 0
  }

  function SeatsAtAll(scene: Scene, tables: Bodies, n: nat): nat
    requires n <= |scene.candidates|
  {
    if tables == [] then 0
    else SeatsAtAll(scene, tables[..|tables| - 1], n) + scene.SeatsAt(tables[|tables| - 1].id, n)
  }

  /** One more candidate adds one seat to exactly one table, or none to any. */
  lemma {:induction false} OneMoreCandidate(scene: Scene, tables: Bodies, n: nat)
    requires n < |scene.candidates| && DistinctIds(tables)
    ensures var relation := scene.Relating(scene.candidates[n]);
      SeatsAtAll(scene, tables, n + 1) == SeatsAtAll(scene, tables, n)
        + if relation.Definite? && HasId(tables, relation.table.id) then 1 else 0
  {
    hide Scene.Relating;
    if tables != [] {
      var rest, last := tables[..|tables| - 1], tables[|tables| - 1];
      OneMoreCandidate(scene, rest, n);
      var relation := scene.Relating(scene.candidates[n]);
      if relation.Definite? {
        var id := relation.table.id;
        assert HasId(tables, id) <==> HasId(rest, id) || last.id == id by {
          assert tables[|tables| - 1] == last;
          assert forall k :: 0 <= k < |rest| ==> tables[k] == rest[k];
        }
        assert last.id == id ==> !HasId(rest, id);
      }
    }
  }

  /** Definite, ambiguous and loose seats are all the seats. */
  lemma {:induction false} SeatsAreConserved(scene: Scene, n: nat)
    requires scene.Valid() && n <= |scene.candidates|
    ensures SeatsAtAll(scene, scene.Tables(), n)
          + CountWhere(scene.candidates, n, (c: Body) => scene.KindOf(c) == SeatKind && scene.RelationOf(c).Ambiguous?)
          + CountWhere(scene.candidates, n, (c: Body) => scene.KindOf(c) == SeatKind && scene.RelationOf(c).Loose?)
         == CountWhere(scene.candidates, n, (c: Body) => scene.KindOf(c) == SeatKind)
  {
    hide Scene.Tables, Scene.RelationOf, Scene.KindOf, HasId;
    if n == 0 {
      NoSeatsYet(scene, scene.Tables());
    } else {
      SeatsAreConserved(scene, n - 1);
      TableIdsDistinct(scene);
      OneMoreCandidate(scene, scene.Tables(), n - 1);
      var c := scene.candidates[n - 1];
      if scene.Relating(c).Definite? {
        DefiniteIsTable(scene, c);
        MembersHaveIds(scene.Tables());
      }
    }
  }

  lemma NoSeatsYet(scene: Scene, tables: Bodies)
    ensures SeatsAtAll(scene, tables, 0) == 0
  {
  }

  lemma TableIdsDistinct(scene: Scene)
    requires scene.Valid()
    ensures DistinctIds(scene.Tables())
  {
    FilterKeepsIdsDistinct(scene.candidates, (c: Body) => c.shape.Some?);
    FilterKeepsIdsDistinct(scene.Fitted(), (c: Body) => !HasId(scene.Sections(), c.id));
    FilterKeepsIdsDistinct(scene.Remaining(),
      (body: Body) => !HasId(scene.Seats(), body.id) && |scene.SeatsNear(body)| >= 3);
  }
}
