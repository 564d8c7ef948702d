/** Save, restore and save again: the same layout under new ids, parent links included. */
module SnapshotRoundTrip {
  import opened Outcomes
  import opened Snapshot

  /** The unique indexes (event, name) on sections and (section, name) on tables. */
  ghost predicate Good(s: Store) {
    && (forall a, b :: a in s.sections && b in s.sections && a != b ==> s.sections[a].name != s.sections[b].name)
    && (forall a, b :: a in s.tables && b in s.tables && a != b ==>
          s.tables[a].sectionId != s.tables[b].sectionId || s.tables[a].name != s.tables[b].name)
  }

  // ---------- What a restore does to each entry

  function MovedSection(s: SectionSnap, w: Work): SectionSnap {
    s.(id := Find(w.sectionMap, s.id))
  }

  predicate TableKept(t: TableSnap, w: Work) {
    Find(w.sectionMap, t.sectionId).Some?
  }

  function MovedTable(t: TableSnap, w: Work): TableSnap {
    t.(id := Find(w.tableMap, t.id), sectionId := Find(w.sectionMap, t.sectionId))
  }

  predicate SeatKept(s: SeatSnap, w: Work) {
    Find(w.sectionMap, s.sectionId).Some? && Find(w.tableMap, s.tableId).Some?
  }

  /** The seat type that comes back. */
  function StoredType(t: Option<SeatType>): Option<SeatType> {
    Some(NormalType(t).GetOr(Standard))
  }

  function MovedSeat(s: SeatSnap, w: Work): SeatSnap {
    s.(id := Find(w.seatMap, s.id), sectionId := Find(w.sectionMap, s.sectionId),
       tableId := Find(w.tableMap, s.tableId),
       seatType := StoredType(s.seatType))
  }

  ghost predicate Injective(m: map<Id, Id>) {
    forall a, b :: a in m && b in m && a != b ==> m[a] != m[b]
  }

  /** Up to three injective renamings of ids, `newer` is `older` without the entries whose parents are missing. */
  ghost predicate Renamed(older: Layout, newer: Layout, w: Work) {
    && Injective(w.sectionMap) && Injective(w.tableMap) && Injective(w.seatMap)
    && (forall x :: x in newer.sections <==> SectionCameFrom(older.sections, w, x))
    && (forall x :: x in newer.tables <==> TableCameFrom(older.tables, w, x))
    && (forall x :: x in newer.seats <==> SeatCameFrom(older.seats, w, x))
  }

  ghost predicate SectionCameFrom(xs: seq<SectionSnap>, w: Work, x: SectionSnap) {
    exists y :: y in xs && x == MovedSection(y, w)
  }

  ghost predicate TableCameFrom(xs: seq<TableSnap>, w: Work, x: TableSnap) {
    exists y :: y in xs && TableKept(y, w) && x == MovedTable(y, w)
  }

  ghost predicate SeatCameFrom(xs: seq<SeatSnap>, w: Work, x: SeatSnap) {
    exists y :: y in xs && SeatKept(y, w) && x == MovedSeat(y, w)
  }

  // ---------- Restored rows in closed form

  ghost predicate DistinctIds(ids: seq<Option<Id>>) {
    && (forall i :: 0 <= i < |ids| ==> ids[i].Some?)
    && (forall i, j :: 0 <= i < j < |ids| ==> ids[i] != ids[j])
  }

  /** The map sends the k-th id to base + k and knows no other id. */
  ghost predicate MapsTo(m: map<Id, Id>, ids: seq<Option<Id>>, base: Id) {
    && (forall i :: 0 <= i < |ids| ==> ids[i].Some? && ids[i].value in m && m[ids[i].value] == base + i)
    && (forall id :: id in m ==> Some(id) in ids && base <= m[id] < base + |ids|)
  }

  ghost predicate Rows<R>(rows: map<Id, R>, expected: seq<R>, base: Id) {
    && (forall id :: id in rows <==> base <= id < base + |expected|)
    && (forall id :: id in rows ==> rows[id] == expected[id - base])
  }

  lemma MapsToInjective(m: map<Id, Id>, ids: seq<Option<Id>>, base: Id)
    requires MapsTo(m, ids, base)
    ensures Injective(m)
  {
    forall a, b | a in m && b in m && a != b ensures m[a] != m[b] {
      var i :| 0 <= i < |ids| && ids[i] == Some(a);
      var j :| 0 <= j < |ids| && ids[j] == Some(b);
    }
  }

  lemma MapsToGrows(m: map<Id, Id>, ids: seq<Option<Id>>, base: Id, id: Option<Id>)
    requires MapsTo(m, ids, base) && DistinctIds(ids + [id])
    ensures MapsTo(Remember(m, id, base + |ids|), ids + [id], base)
  {
    var longer, m' := ids + [id], Remember(m, id, base + |ids|);
    assert longer[|ids|] == id;
    forall i | 0 <= i < |longer|
      ensures longer[i].Some? && longer[i].value in m' && m'[longer[i].value] == base + i
    {
      if i < |ids| { assert longer[i] == ids[i] && longer[i] != longer[|ids|]; }
    }
    forall x | x in m' ensures Some(x) in longer && base <= m'[x] < base + |longer| {
      if Some(x) != id { assert x in m; }
    }
  }

  lemma RowsGrow<R>(rows: map<Id, R>, expected: seq<R>, base: Id, row: R)
    requires Rows(rows, expected, base)
    ensures Rows(rows[base + |expected| := row], expected + [row], base)
  {
  }

  lemma DistinctPrefix(ids: seq<Option<Id>>, id: Option<Id>)
    requires DistinctIds(ids + [id])
    ensures DistinctIds(ids)
  {
    assert forall k :: 0 <= k < |ids| ==> (ids + [id])[k] == ids[k];
  }

  function SectionIds(xs: seq<SectionSnap>): (ids: seq<Option<Id>>)
    ensures |ids| == |xs| && forall k :: 0 <= k < |xs| ==> ids[k] == xs[k].id
  {
    seq(|xs|, k requires 0 <= k < |xs| => xs[k].id)
  }

  function SectionRows(xs: seq<SectionSnap>): (rows: seq<SectionRow>)
    ensures |rows| == |xs| && forall k :: 0 <= k < |xs| ==> rows[k] == SectionOf(xs[k])
  {
    seq(|xs|, k requires 0 <= k < |xs| => SectionOf(xs[k]))
  }

  lemma SectionNameFree(before: Work, init: seq<SectionSnap>, base: Id, last: SectionSnap)
    requires Rows(before.store.sections, SectionRows(init), base)
    requires forall i :: 0 <= i < |init| ==> init[i].name != last.name
    ensures !SectionNameTaken(before.store, last.name)
  {
    forall id | id in before.store.sections ensures before.store.sections[id].name != last.name {
      assert before.store.sections[id] == SectionRows(init)[id - base];
    }
  }

  /** All sections, in order, under consecutive new ids. */
  ghost predicate SectionsRestored(w: Work, xs: seq<SectionSnap>, r: Option<Work>) {
    && r.Some?
    && r.value == w.(store := w.store.(sections := r.value.store.sections, next := w.store.next + |xs|),
                     sectionMap := r.value.sectionMap)
    && MapsTo(r.value.sectionMap, SectionIds(xs), w.store.next)
    && Rows(r.value.store.sections, SectionRows(xs), w.store.next)
  }

  lemma SectionStep(w: Work, init: seq<SectionSnap>, last: SectionSnap, before: Option<Work>)
    requires SectionsRestored(w, init, before) && DistinctIds(SectionIds(init) + [last.id])
    requires forall i :: 0 <= i < |init| ==> init[i].name != last.name
    ensures SectionsRestored(w, init + [last], AddSection(before.value, last))
  {
    hide DistinctIds, MapsTo, Rows, Remember, SectionNameTaken;
    assert SectionIds(init + [last]) == SectionIds(init) + [last.id];
    assert SectionRows(init + [last]) == SectionRows(init) + [SectionOf(last)];
    MapsToGrows(before.value.sectionMap, SectionIds(init), w.store.next, last.id);
    RowsGrow(before.value.store.sections, SectionRows(init), w.store.next, SectionOf(last));
    SectionNameFree(before.value, init, w.store.next, last);
  }

  lemma {:induction false} SectionsInOrder(w: Work, xs: seq<SectionSnap>)
    requires w.store.sections == map[] && w.sectionMap == map[]
    requires DistinctIds(SectionIds(xs)) && forall i, j :: 0 <= i < j < |xs| ==> xs[i].name != xs[j].name
    ensures SectionsRestored(w, xs, AddSections(w, xs))
  {
    if xs != [] {
      var init, last := xs[..|xs| - 1], xs[|xs| - 1];
      assert xs == init + [last] && SectionIds(xs) == SectionIds(init) + [last.id];
      DistinctPrefix(SectionIds(init), last.id);
      SectionsInOrder(w, init);
      SectionStep(w, init, last, AddSections(w, init));
    }
  }

  // Tables and seats whose parents are missing leave no trace, so only the kept ones matter.

  function KeptTables(w: Work, xs: seq<TableSnap>): seq<TableSnap> {
    Filter(xs, (t: TableSnap) => TableKept(t, w))
  }

  function KeptSeats(w: Work, xs: seq<SeatSnap>): seq<SeatSnap> {
    Filter(xs, (s: SeatSnap) => SeatKept(s, w))
  }

  function TableIds(xs: seq<TableSnap>): (ids: seq<Option<Id>>)
    ensures |ids| == |xs| && forall k :: 0 <= k < |xs| ==> ids[k] == xs[k].id
  {
    seq(|xs|, k requires 0 <= k < |xs| => xs[k].id)
  }

  function TableRows(w: Work, xs: seq<TableSnap>): (rows: seq<TableRow>)
    ensures |rows| == |xs| && forall k :: 0 <= k < |xs| ==>
      rows[k] == TableOf(xs[k], Find(w.sectionMap, xs[k].sectionId).GetOr(0))
  {
    seq(|xs|, k requires 0 <= k < |xs| => TableOf(xs[k], Find(w.sectionMap, xs[k].sectionId).GetOr(0)))
  }

  ghost predicate TableNamesDistinct(xs: seq<TableSnap>) {
    forall i, j :: 0 <= i < j < |xs| ==> xs[i].sectionId != xs[j].sectionId || xs[i].name != xs[j].name
  }

  lemma {:induction false} KeptTablesDistinct(w: Work, xs: seq<TableSnap>)
    requires DistinctIds(TableIds(xs)) && TableNamesDistinct(xs)
    ensures DistinctIds(TableIds(KeptTables(w, xs))) && TableNamesDistinct(KeptTables(w, xs))
  {
    if xs != [] {
      var init, last := xs[..|xs| - 1], xs[|xs| - 1];
      assert TableIds(xs) == TableIds(init) + [last.id];
      KeptTablesDistinct(w, init);
      var kept := KeptTables(w, init);
      forall i | 0 <= i < |kept|
        ensures kept[i].id != last.id && (kept[i].sectionId != last.sectionId || kept[i].name != last.name)
      {
        assert kept[i] in kept && kept[i] in init;
        var j :| 0 <= j < |init| && init[j] == kept[i];
        assert TableIds(xs)[j] != TableIds(xs)[|xs| - 1] && xs[j] == init[j];
      }
    }
  }

  lemma TableNameFree(w: Work, before: Work, kept: seq<TableSnap>, last: TableSnap)
    requires Injective(w.sectionMap) && Rows(before.store.tables, TableRows(w, kept), w.store.next)
    requires TableNamesDistinct(kept + [last]) && TableKept(last, w) && forall t :: t in kept ==> TableKept(t, w)
    ensures !TableNameTaken(before.store, Find(w.sectionMap, last.sectionId).value, last.name)
  {
    forall id | id in before.store.tables
      ensures var row := before.store.tables[id];
        row.sectionId != Find(w.sectionMap, last.sectionId).value || row.name != last.name
    {
      var k := id - w.store.next;
      assert before.store.tables[id] == TableRows(w, kept)[k];
      assert kept[k] in kept && (kept + [last])[k] == kept[k] && (kept + [last])[|kept|] == last;
    }
  }

  ghost predicate TablesRestored(w: Work, kept: seq<TableSnap>, r: Option<Work>) {
    && r.Some?
    && r.value == w.(store := w.store.(tables := r.value.store.tables, next := w.store.next + |kept|),
                     tableMap := r.value.tableMap)
    && MapsTo(r.value.tableMap, TableIds(kept), w.store.next)
    && Rows(r.value.store.tables, TableRows(w, kept), w.store.next)
  }

  lemma TableStep(w: Work, kept: seq<TableSnap>, last: TableSnap, before: Option<Work>)
    requires TablesRestored(w, kept, before) && Injective(w.sectionMap)
    requires DistinctIds(TableIds(kept) + [last.id]) && TableNamesDistinct(kept + [last])
    requires TableKept(last, w) && forall t :: t in kept ==> TableKept(t, w)
    ensures TablesRestored(w, kept + [last], AddTable(before.value, last))
  {
    hide DistinctIds, MapsTo, Rows, Remember, TableNameTaken, Injective, TableNamesDistinct;
    assert TableIds(kept + [last]) == TableIds(kept) + [last.id];
    MapsToGrows(before.value.tableMap, TableIds(kept), w.store.next, last.id);
    var row := TableOf(last, Find(w.sectionMap, last.sectionId).value);
    assert TableRows(w, kept + [last]) == TableRows(w, kept) + [row];
    RowsGrow(before.value.store.tables, TableRows(w, kept), w.store.next, row);
    TableNameFree(w, before.value, kept, last);
  }

  lemma {:induction false} TablesInOrder(w: Work, xs: seq<TableSnap>)
    requires w.store.tables == map[] && w.tableMap == map[] && Injective(w.sectionMap)
    requires DistinctIds(TableIds(xs)) && TableNamesDistinct(xs)
    ensures TablesRestored(w, KeptTables(w, xs), AddTables(w, xs))
  {
    if xs != [] {
      var init, last := xs[..|xs| - 1], xs[|xs| - 1];
      assert TableIds(xs) == TableIds(init) + [last.id];
      DistinctPrefix(TableIds(init), last.id);
      TablesInOrder(w, init);
      KeptTablesDistinct(w, xs);
      var kept := KeptTables(w, init);
      if TableKept(last, w) {
        assert KeptTables(w, xs) == kept + [last] && TableIds(kept + [last]) == TableIds(kept) + [last.id];
        TableStep(w, kept, last, AddTables(w, init));
      } else {
        assert KeptTables(w, xs) == kept;
      }
    }
  }

  function SeatIds(xs: seq<SeatSnap>): (ids: seq<Option<Id>>)
    ensures |ids| == |xs| && forall k :: 0 <= k < |xs| ==> ids[k] == xs[k].id
  {
    seq(|xs|, k requires 0 <= k < |xs| => xs[k].id)
  }

  function NewSeat(w: Work, s: SeatSnap): SeatRow {
    SeatOf(s, Find(w.sectionMap, s.sectionId).GetOr(0), Find(w.tableMap, s.tableId).GetOr(0))
  }

  function SeatRows(w: Work, xs: seq<SeatSnap>): (rows: seq<SeatRow>)
    ensures |rows| == |xs| && forall k :: 0 <= k < |xs| ==> rows[k] == NewSeat(w, xs[k])
  {
    seq(|xs|, k requires 0 <= k < |xs| => NewSeat(w, xs[k]))
  }

  lemma {:induction false} KeptSeatsDistinct(w: Work, xs: seq<SeatSnap>)
    requires DistinctIds(SeatIds(xs))
    ensures DistinctIds(SeatIds(KeptSeats(w, xs)))
  {
    if xs != [] {
      var init, last := xs[..|xs| - 1], xs[|xs| - 1];
      assert SeatIds(xs) == SeatIds(init) + [last.id];
      KeptSeatsDistinct(w, init);
      var kept := KeptSeats(w, init);
      forall i | 0 <= i < |kept| ensures kept[i].id != last.id {
        assert kept[i] in kept && kept[i] in init;
        var j :| 0 <= j < |init| && init[j] == kept[i];
        assert SeatIds(xs)[j] != SeatIds(xs)[|xs| - 1];
      }
    }
  }

  ghost predicate SeatsRestored(w: Work, kept: seq<SeatSnap>, r: Work) {
    && r == w.(store := w.store.(seats := r.store.seats, next := w.store.next + |kept|), seatMap := r.seatMap)
    && MapsTo(r.seatMap, SeatIds(kept), w.store.next)
    && Rows(r.store.seats, SeatRows(w, kept), w.store.next)
  }

  lemma SeatStep(w: Work, kept: seq<SeatSnap>, last: SeatSnap, before: Work)
    requires SeatsRestored(w, kept, before) && DistinctIds(SeatIds(kept) + [last.id]) && SeatKept(last, w)
    ensures SeatsRestored(w, kept + [last], AddSeat(before, last))
  {
    hide DistinctIds, MapsTo, Rows, Remember;
    assert SeatIds(kept + [last]) == SeatIds(kept) + [last.id];
    MapsToGrows(before.seatMap, SeatIds(kept), w.store.next, last.id);
    assert SeatRows(w, kept + [last]) == SeatRows(w, kept) + [NewSeat(w, last)];
    RowsGrow(before.store.seats, SeatRows(w, kept), w.store.next, NewSeat(w, last));
  }

  lemma {:induction false} SeatsInOrder(w: Work, xs: seq<SeatSnap>)
    requires w.store.seats == map[] && w.seatMap == map[] && DistinctIds(SeatIds(xs))
    ensures SeatsRestored(w, KeptSeats(w, xs), AddSeats(w, xs))
  {
    if xs != [] {
      var init, last := xs[..|xs| - 1], xs[|xs| - 1];
      assert SeatIds(xs) == SeatIds(init) + [last.id];
      DistinctPrefix(SeatIds(init), last.id);
      SeatsInOrder(w, init);
      KeptSeatsDistinct(w, xs);
      var kept := KeptSeats(w, init);
      if SeatKept(last, w) {
        assert KeptSeats(w, xs) == kept + [last] && SeatIds(kept + [last]) == SeatIds(kept) + [last.id];
        SeatStep(w, kept, last, AddSeats(w, init));
      } else {
        assert KeptSeats(w, xs) == kept;
      }
    }
  }

  // ---------- The round trip

  ghost predicate SectionsBack(saved: Layout, w: Work, base: Id) {
    MapsTo(w.sectionMap, SectionIds(saved.sections), base) && Rows(w.store.sections, SectionRows(saved.sections), base)
  }

  ghost predicate TablesBack(saved: Layout, w: Work, base: Id) {
    var kept := KeptTables(w, saved.tables);
    MapsTo(w.tableMap, TableIds(kept), base) && Rows(w.store.tables, TableRows(w, kept), base)
  }

  ghost predicate SeatsBack(saved: Layout, w: Work, base: Id) {
    var kept := KeptSeats(w, Normalize(saved).seats);
    MapsTo(w.seatMap, SeatIds(kept), base) && Rows(w.store.seats, SeatRows(w, kept), base)
  }

  /** What the whole transaction leaves behind, table by table. */
  ghost predicate Restored(saved: Layout, w: Work, base: Id) {
    && SectionsBack(saved, w, base)
    && TablesBack(saved, w, base + |saved.sections|)
    && SeatsBack(saved, w, base + |saved.sections| + |KeptTables(w, saved.tables)|)
  }

  lemma ListingIsDistinct(s: Store, l: Listing)
    requires Good(s) && l.Lists(s)
    ensures var saved := Serialize(s, l);
      && DistinctIds(SectionIds(saved.sections)) && DistinctIds(TableIds(saved.tables))
      && DistinctIds(SeatIds(Normalize(saved).seats))
      && (forall i, j :: 0 <= i < j < |saved.sections| ==> saved.sections[i].name != saved.sections[j].name)
      && TableNamesDistinct(saved.tables)
  {
  }

  lemma {:induction false} FilterSame<T(!new)>(xs: seq<T>, f: T -> bool, g: T -> bool)
    requires forall x :: f(x) == g(x)
    ensures Filter(xs, f) == Filter(xs, g)
  {
    if xs != [] { FilterSame(xs[..|xs| - 1], f, g); }
  }

  /** Later stages keep the maps that decide what earlier stages kept. */
  lemma SameKept(w1: Work, w2: Work, tables: seq<TableSnap>, seats: seq<SeatSnap>)
    requires w1.sectionMap == w2.sectionMap
    ensures KeptTables(w1, tables) == KeptTables(w2, tables) && TableRows(w1, tables) == TableRows(w2, tables)
    ensures w1.tableMap == w2.tableMap ==>
      KeptSeats(w1, seats) == KeptSeats(w2, seats) && SeatRows(w1, seats) == SeatRows(w2, seats)
  {
    FilterSame(tables, (t: TableSnap) => TableKept(t, w1), (t: TableSnap) => TableKept(t, w2));
    if w1.tableMap == w2.tableMap {
      FilterSame(seats, (x: SeatSnap) => SeatKept(x, w1), (x: SeatSnap) => SeatKept(x, w2));
    }
  }

  /** A saved layout is never refused, and is restored entry by entry. */
  lemma RestoreSucceeds(s: Store, l: Listing)
    requires Good(s) && l.Lists(s)
    ensures Restore(s, Serialize(s, l)).Some?
    ensures Restored(Serialize(s, l), Restore(s, Serialize(s, l)).value, s.next)
  {
    hide DistinctIds, TableNamesDistinct, MapsTo, Rows, Injective, Good, Listing.Lists, Serialize, KeptTables,
      KeptSeats,
         TableRows, SeatRows, SectionIds, TableIds, SeatIds, SectionRows, AddSections, AddTables, AddSeats;
    var saved := Serialize(s, l);
    var snap := Normalize(saved);
    ListingIsDistinct(s, l);
    SectionsInOrder(Cleared(s), snap.sections);
    var w1 := AddSections(Cleared(s), snap.sections).value;
    MapsToInjective(w1.sectionMap, SectionIds(snap.sections), s.next);
    TablesInOrder(w1, snap.tables);
    var w2 := AddTables(w1, snap.tables).value;
    SeatsInOrder(w2, snap.seats);
    var w := AddSeats(w2, snap.seats);
    SameKept(w1, w, snap.tables, snap.seats);
    SameKept(w2, w, snap.tables, snap.seats);
    SameKept(w1, w, KeptTables(w, snap.tables), KeptSeats(w, snap.seats));
    SameKept(w2, w, KeptTables(w, snap.tables), KeptSeats(w, snap.seats));
  }

  /** The place of an id in a listing. */
  lemma PlaceOf(order: seq<Id>, ids: set<Id>, id: Id) returns (k: nat)
    requires IsListing(order, ids) && id in ids
    ensures k < |order| && order[k] == id
  {
    assert id in order;
    k :| 0 <= k < |order| && order[k] == id;
  }

  lemma ListedExists(order: seq<Id>, ids: set<Id>)
    requires IsListing(order, ids)
    ensures forall k :: 0 <= k < |order| ==> order[k] in ids
  {
  }

  lemma SectionAt(xs: seq<SectionSnap>, w: Work, base: Id, i: nat)
    requires i < |xs| && MapsTo(w.sectionMap, SectionIds(xs), base) && Rows(w.store.sections, SectionRows(xs), base)
    ensures base + i in w.store.sections
    ensures SectionToSnap(base + i, w.store.sections[base + i]) == MovedSection(xs[i], w)
  {
    assert SectionIds(xs)[i] == xs[i].id;
  }

  lemma SectionsRenamed(xs: seq<SectionSnap>, w: Work, base: Id, order: seq<Id>)
    requires MapsTo(w.sectionMap, SectionIds(xs), base) && Rows(w.store.sections, SectionRows(xs), base)
    requires IsListing(order, w.store.sections.Keys)
    ensures forall k :: 0 <= k < |order| ==> order[k] in w.store.sections
    ensures forall x :: x in SectionSnaps(w.store.sections, order) <==> SectionCameFrom(xs, w, x)
  {
    hide MapsTo, SectionToSnap, MovedSection, SectionOf, IsListing;
    ListedExists(order, w.store.sections.Keys);
    var newer := SectionSnaps(w.store.sections, order);
    forall k | 0 <= k < |newer| ensures SectionCameFrom(xs, w, newer[k]) {
      SectionAt(xs, w, base, order[k] - base);
      assert xs[order[k] - base] in xs;
    }
    forall i | 0 <= i < |xs| ensures MovedSection(xs[i], w) in newer {
      SectionAt(xs, w, base, i);
      var k := PlaceOf(order, w.store.sections.Keys, base + i);
      assert newer[k] == MovedSection(xs[i], w);
    }
  }

  lemma TableAt(kept: seq<TableSnap>, w: Work, base: Id, i: nat)
    requires i < |kept| && MapsTo(w.tableMap, TableIds(kept), base) && Rows(w.store.tables, TableRows(w, kept), base)
    requires TableKept(kept[i], w)
    ensures base + i in w.store.tables
    ensures TableToSnap(base + i, w.store.tables[base + i]) == MovedTable(kept[i], w)
  {
    assert TableIds(kept)[i] == kept[i].id;
  }

  lemma TablesRenamed(xs: seq<TableSnap>, w: Work, base: Id, order: seq<Id>)
    requires MapsTo(w.tableMap, TableIds(KeptTables(w, xs)), base)
    requires Rows(w.store.tables, TableRows(w, KeptTables(w, xs)), base)
    requires IsListing(order, w.store.tables.Keys)
    ensures forall k :: 0 <= k < |order| ==> order[k] in w.store.tables
    ensures forall x :: x in TableSnaps(w.store.tables, order) <==> TableCameFrom(xs, w, x)
  {
    hide MapsTo, TableToSnap, MovedTable, TableOf, TableKept, IsListing;
    ListedExists(order, w.store.tables.Keys);
    var newer, kept := TableSnaps(w.store.tables, order), KeptTables(w, xs);
    forall k | 0 <= k < |newer| ensures TableCameFrom(xs, w, newer[k]) {
      assert kept[order[k] - base] in kept;
      TableAt(kept, w, base, order[k] - base);
    }
    forall i | 0 <= i < |kept| ensures MovedTable(kept[i], w) in newer {
      assert kept[i] in kept;
      TableAt(kept, w, base, i);
      var k := PlaceOf(order, w.store.tables.Keys, base + i);
      assert newer[k] == MovedTable(kept[i], w);
    }
  }

  lemma SeatAt(kept: seq<SeatSnap>, w: Work, base: Id, i: nat)
    requires i < |kept| && MapsTo(w.seatMap, SeatIds(kept), base) && Rows(w.store.seats, SeatRows(w, kept), base)
    requires SeatKept(kept[i], w)
    ensures base + i in w.store.seats
    ensures SeatToSnap(base + i, w.store.seats[base + i]) == ArrivedSeat(kept[i], w)
  {
    assert SeatIds(kept)[i] == kept[i].id;
  }

  /** A normalised entry as it is saved the second time. */
  function ArrivedSeat(z: SeatSnap, w: Work): SeatSnap {
    z.(id := Find(w.seatMap, z.id), sectionId := Find(w.sectionMap, z.sectionId),
       tableId := Find(w.tableMap, z.tableId),
       seatType := Some(z.seatType.GetOr(Standard)))
  }

  ghost predicate SeatArrived(kept: seq<SeatSnap>, w: Work, x: SeatSnap) {
    exists z :: z in kept && x == ArrivedSeat(z, w)
  }

  lemma SeatsArrive(kept: seq<SeatSnap>, w: Work, base: Id, order: seq<Id>)
    requires MapsTo(w.seatMap, SeatIds(kept), base) && Rows(w.store.seats, SeatRows(w, kept), base)
    requires IsListing(order, w.store.seats.Keys) && forall z :: z in kept ==> SeatKept(z, w)
    ensures forall k :: 0 <= k < |order| ==> order[k] in w.store.seats
    ensures forall x :: x in SeatSnaps(w.store.seats, order) <==> SeatArrived(kept, w, x)
  {
    hide MapsTo, SeatToSnap, ArrivedSeat, SeatOf, SeatKept, NewSeat, IsListing;
    ListedExists(order, w.store.seats.Keys);
    var newer := SeatSnaps(w.store.seats, order);
    forall k | 0 <= k < |newer| ensures SeatArrived(kept, w, newer[k]) {
      assert kept[order[k] - base] in kept;
      SeatAt(kept, w, base, order[k] - base);
    }
    forall i | 0 <= i < |kept| ensures ArrivedSeat(kept[i], w) in newer {
      SeatAt(kept, w, base, i);
      var k := PlaceOf(order, w.store.seats.Keys, base + i);
      assert newer[k] == ArrivedSeat(kept[i], w);
    }
  }

  lemma NormalMoves(y: SeatSnap, w: Work)
    ensures MovedSeat(y, w) == ArrivedSeat(NormalSeat(y), w) && SeatKept(y, w) == SeatKept(NormalSeat(y), w)
  {
  }

  lemma NormalSeatCame(saved: Layout, w: Work, x: SeatSnap)
    requires SeatArrived(KeptSeats(w, Normalize(saved).seats), w, x)
    ensures SeatCameFrom(saved.seats, w, x)
  {
    hide MovedSeat, ArrivedSeat, SeatKept, NormalSeat;
    var normal := Normalize(saved).seats;
    var z :| z in KeptSeats(w, normal) && x == ArrivedSeat(z, w);
    var j :| 0 <= j < |normal| && normal[j] == z;
    NormalMoves(saved.seats[j], w);
    assert saved.seats[j] in saved.seats && normal[j] == NormalSeat(saved.seats[j]);
  }

  lemma CameSeatArrived(saved: Layout, w: Work, x: SeatSnap)
    requires SeatCameFrom(saved.seats, w, x)
    ensures SeatArrived(KeptSeats(w, Normalize(saved).seats), w, x)
  {
    hide MovedSeat, ArrivedSeat, SeatKept, NormalSeat;
    var normal := Normalize(saved).seats;
    var y :| y in saved.seats && SeatKept(y, w) && x == MovedSeat(y, w);
    var j :| 0 <= j < |saved.seats| && saved.seats[j] == y;
    NormalMoves(y, w);
    assert normal[j] == NormalSeat(y) && normal[j] in normal;
  }

  lemma NormalSeats(saved: Layout, w: Work, x: SeatSnap)
    ensures SeatArrived(KeptSeats(w, Normalize(saved).seats), w, x) <==> SeatCameFrom(saved.seats, w, x)
  {
    hide SeatArrived, SeatCameFrom, KeptSeats, Normalize;
    if SeatArrived(KeptSeats(w, Normalize(saved).seats), w, x) { NormalSeatCame(saved, w, x); }
    if SeatCameFrom(saved.seats, w, x) { CameSeatArrived(saved, w, x); }
  }

  lemma SeatsRenamed(saved: Layout, w: Work, base: Id, order: seq<Id>)
    requires MapsTo(w.seatMap, SeatIds(KeptSeats(w, Normalize(saved).seats)), base)
    requires Rows(w.store.seats, SeatRows(w, KeptSeats(w, Normalize(saved).seats)), base)
    requires IsListing(order, w.store.seats.Keys)
    ensures forall k :: 0 <= k < |order| ==> order[k] in w.store.seats
    ensures forall x :: x in SeatSnaps(w.store.seats, order) <==> SeatCameFrom(saved.seats, w, x)
  {
    hide MapsTo, Rows, SeatArrived, SeatCameFrom, Normalize, IsListing;
    SeatsArrive(KeptSeats(w, Normalize(saved).seats), w, base, order);
    forall x { NormalSeats(saved, w, x); }
  }

  /** Saving, restoring and saving again gives the same layout up to an injective renaming of ids. */
  lemma SaveRestoreSave(s: Store, l: Listing, l2: Listing)
    requires Good(s) && l.Lists(s)
    requires Restore(s, Serialize(s, l)).Some? ==> l2.Lists(Restore(s, Serialize(s, l)).value.store)
    ensures Restore(s, Serialize(s, l)).Some?
    ensures var w := Restore(s, Serialize(s, l)).value; Renamed(Serialize(s, l), Serialize(w.store, l2), w)
  {
    hide Restore, Good, SectionCameFrom, TableCameFrom, SeatCameFrom, Injective, MapsTo, Rows, IsListing, SectionSnaps,
      TableSnaps, SeatSnaps, Normalize;
    RestoreSucceeds(s, l);
    var saved := Serialize(s, l);
    var w := Restore(s, saved).value;
    MapsAreInjective(saved, w, s.next);
    SectionsRenamed(saved.sections, w, s.next, l2.sections);
    TablesRenamed(saved.tables, w, s.next + |saved.sections|, l2.tables);
    SeatsRenamed(saved, w, s.next + |saved.sections| + |KeptTables(w, saved.tables)|, l2.seats);
  }

  lemma MapsAreInjective(saved: Layout, w: Work, base: Id)
    requires Restored(saved, w, base)
    ensures Injective(w.sectionMap) && Injective(w.tableMap) && Injective(w.seatMap)
  {
    var tables, seats := KeptTables(w, saved.tables), KeptSeats(w, Normalize(saved).seats);
    MapsToInjective(w.sectionMap, SectionIds(saved.sections), base);
    MapsToInjective(w.tableMap, TableIds(tables), base + |saved.sections|);
    MapsToInjective(w.seatMap, SeatIds(seats), base + |saved.sections| + |tables|);
  }

  // ---------- What survives

  predicate HasSection(s: Store, table: Id) {
    table in s.tables && s.tables[table].sectionId in s.sections
  }

  lemma MapKnows(m: map<Id, Id>, ids: seq<Option<Id>>, base: Id)
    requires MapsTo(m, ids, base)
    ensures forall id :: id in m <==> Some(id) in ids
  {
  }

  lemma SectionsKnown(s: Store, l: Listing, w: Work, base: Id)
    requires l.Lists(s) && SectionsBack(Serialize(s, l), w, base)
    ensures forall id :: id in w.sectionMap <==> id in s.sections
  {
    var ids := SectionIds(SectionSnaps(s.sections, l.sections));
    MapKnows(w.sectionMap, ids, base);
    assert forall id :: id in s.sections <==> id in l.sections;
    hide *;
    assert forall k :: 0 <= k < |l.sections| ==> ids[k] == Some(l.sections[k]) by { SectionIdsAre(s, l.sections); }
    assert |ids| == |l.sections| by { SectionIdsAre(s, l.sections); }
  }

  lemma SectionIdsAre(s: Store, order: seq<Id>)
    requires forall k :: 0 <= k < |order| ==> order[k] in s.sections
    ensures var ids := SectionIds(SectionSnaps(s.sections, order));
      |ids| == |order| && forall k :: 0 <= k < |order| ==> ids[k] == Some(order[k])
  {
  }

  lemma KeptTableIds(s: Store, order: seq<Id>, w: Work, id: Id)
    requires IsListing(order, s.tables.Keys) && forall x :: x in w.sectionMap <==> x in s.sections
    ensures Some(id) in TableIds(KeptTables(w, TableSnaps(s.tables, order))) <==> HasSection(s, id)
  {
    var saved := TableSnaps(s.tables, order);
    var kept := KeptTables(w, saved);
    if HasSection(s, id) {
      var k := PlaceOf(order, s.tables.Keys, id);
      assert saved[k] in saved && saved[k] in kept;
      var i :| 0 <= i < |kept| && kept[i] == saved[k];
      assert TableIds(kept)[i] == Some(id);
    }
    if Some(id) in TableIds(kept) {
      var i :| 0 <= i < |kept| && TableIds(kept)[i] == Some(id);
      assert kept[i] in kept && kept[i] in saved;
      var k :| 0 <= k < |saved| && saved[k] == kept[i];
      assert saved[k] == TableToSnap(order[k], s.tables[order[k]]);
    }
  }

  lemma TablesKnown(s: Store, l: Listing, w: Work, base: Id)
    requires l.Lists(s) && TablesBack(Serialize(s, l), w, base)
    requires forall id :: id in w.sectionMap <==> id in s.sections
    ensures forall id :: id in w.tableMap <==> HasSection(s, id)
  {
    hide MapsTo, Rows, HasSection;
    MapKnows(w.tableMap, TableIds(KeptTables(w, TableSnaps(s.tables, l.tables))), base);
    forall id { KeptTableIds(s, l.tables, w, id); }
  }

  /** Exactly the tables whose section is in the event, and the seats in such a section at such a table, survive. */
  lemma WhatSurvives(s: Store, l: Listing)
    requires Good(s) && l.Lists(s)
    ensures Restore(s, Serialize(s, l)).Some?
    ensures var w := Restore(s, Serialize(s, l)).value;
      && (forall id :: id in s.tables ==> (TableKept(TableToSnap(id, s.tables[id]), w) <==> HasSection(s, id)))
      && (forall id :: id in s.seats ==>
            var seat := s.seats[id];
            (SeatKept(SeatToSnap(id, seat), w) <==>
               seat.sectionId in s.sections && seat.tableId.Some? && HasSection(s, seat.tableId.value)))
  {
    hide Restore, Serialize, Good, Listing.Lists, SectionsBack, TablesBack, SeatsBack;
    RestoreSucceeds(s, l);
    var saved := Serialize(s, l);
    var w := Restore(s, saved).value;
    SectionsKnown(s, l, w, s.next);
    TablesKnown(s, l, w, s.next + |saved.sections|);
  }

  /** The seat type comes back for two of the six types only, because it is looked for among the statuses. */
  lemma SeatTypeSurvives(x: SeatSnap, w: Work)
    ensures MovedSeat(x, w).seatType == x.seatType <==> x.seatType in {Some(Standard), Some(ReservedType)}
    ensures MovedSeat(x.(seatType := Some(Vip)), w).seatType == Some(Standard)
  {
  }
}
