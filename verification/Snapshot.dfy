/**
  Layout snapshots (snapshot-serializer.ts; layout-write.service.ts, restoreVersion) for the rows of one event.
  Restoring deletes the rows and creates them again under fresh ids; links are carried over by two maps.
 */
module Snapshot {
  import opened Outcomes

  type Id = nat

  datatype SeatType = Standard | Vip | Staff | Standing | Child | ReservedType

  datatype SeatStatus = Available | Reserved | Assigned | Blocked

  /** JSON metadata, as text. */
  type Meta = string

  const EMPTY_META: Meta := "{}"

  // ---------- Rows

  datatype SectionRow = SectionRow(
    name: string, order: int, x: real, y: real, width: Option<real>, height: Option<real>, meta: Option<Meta>)

  datatype TableRow = TableRow(
    sectionId: Id, name: string, order: int, x: real, y: real, capacity: Option<int>, meta: Option<Meta>)

  datatype SeatRow = SeatRow(
    sectionId: Id, tableId: Option<Id>, number: Option<int>, caption: Option<string>, x: Option<real>, y: Option<real>,
    rotation: Option<real>, seatType: Option<SeatType>, status: SeatStatus, meta: Option<Meta>)

  /** The rows of the event; ids from `next` on have never been used. */
  datatype Store = Store(
    sections: map<Id, SectionRow>, tables: map<Id, TableRow>, seats: map<Id, SeatRow>, next: Id)

  // ---------- Snapshots. An id that is not a string is replaced by a created one, which equals no other: None.

  datatype SectionSnap = SectionSnap(
    id: Option<Id>, name: string, order: int, x: real, y: real, width: Option<real>, height: Option<real>, meta: Meta)

  datatype TableSnap = TableSnap(
    id: Option<Id>, sectionId: Option<Id>, name: string, order: int, x: real, y: real, capacity: Option<int>,
    meta: Meta)

  datatype SeatSnap = SeatSnap(
    id: Option<Id>, tableId: Option<Id>, sectionId: Option<Id>, number: int, caption: Option<string>, x: real, y: real,
    rotation: real, seatType: Option<SeatType>, status: SeatStatus, meta: Meta)

  datatype Layout = Layout(sections: seq<SectionSnap>, tables: seq<TableSnap>, seats: seq<SeatSnap>)

  function SectionToSnap(id: Id, r: SectionRow): SectionSnap {
    SectionSnap(Some(id), r.name, r.order, r.x, r.y, r.width, r.height, r.meta.GetOr(EMPTY_META))
  }

  function TableToSnap(id: Id, r: TableRow): TableSnap {
    TableSnap(Some(id), Some(r.sectionId), r.name, r.order, r.x, r.y, r.capacity, r.meta.GetOr(EMPTY_META))
  }

  function SeatToSnap(id: Id, r: SeatRow): SeatSnap {
    SeatSnap(Some(id), r.tableId, Some(r.sectionId), r.number.GetOr(0), r.caption, r.x.GetOr(0.0), r.y.GetOr(0.0),
             r.rotation.GetOr(0.0), r.seatType, r.status, r.meta.GetOr(EMPTY_META))
  }

  /** The orders in which the database lists the three tables. */
  datatype Listing = Listing(sections: seq<Id>, tables: seq<Id>, seats: seq<Id>) {

    ghost predicate Lists(s: Store) {
      && IsListing(sections, s.sections.Keys) && IsListing(tables, s.tables.Keys) && IsListing(seats, s.seats.Keys)
    }
  }

  ghost predicate IsListing(order: seq<Id>, ids: set<Id>) {
    && (forall k :: 0 <= k < |order| ==> order[k] in ids)
    && (forall id :: id in ids ==> id in order)
    && (forall a, b :: 0 <= a < b < |order| ==> order[a] != order[b])
  }

  function SectionSnaps(rows: map<Id, SectionRow>, order: seq<Id>): (xs: seq<SectionSnap>)
    requires forall k :: 0 <= k < |order| ==> order[k] in rows
    ensures |xs| == |order| && forall k :: 0 <= k < |xs| ==> xs[k] == SectionToSnap(order[k], rows[order[k]])
  {
    seq(|order|, k requires 0 <= k < |order| => SectionToSnap(order[k], rows[order[k]]))
  }

  function TableSnaps(rows: map<Id, TableRow>, order: seq<Id>): (xs: seq<TableSnap>)
    requires forall k :: 0 <= k < |order| ==> order[k] in rows
    ensures |xs| == |order| && forall k :: 0 <= k < |xs| ==> xs[k] == TableToSnap(order[k], rows[order[k]])
  {
    seq(|order|, k requires 0 <= k < |order| => TableToSnap(order[k], rows[order[k]]))
  }

  function SeatSnaps(rows: map<Id, SeatRow>, order: seq<Id>): (xs: seq<SeatSnap>)
    requires forall k :: 0 <= k < |order| ==> order[k] in rows
    ensures |xs| == |order| && forall k :: 0 <= k < |xs| ==> xs[k] == SeatToSnap(order[k], rows[order[k]])
  {
    seq(|order|, k requires 0 <= k < |order| => SeatToSnap(order[k], rows[order[k]]))
  }

  ghost function Serialize(s: Store, l: Listing): Layout
    requires l.Lists(s)
  {
    Layout(SectionSnaps(s.sections, l.sections), TableSnaps(s.tables, l.tables), SeatSnaps(s.seats, l.seats))
  }

  /** Normalisation looks for the seat type among the seat statuses: of all types only RESERVED is also a status. */
  function NormalType(t: Option<SeatType>): Option<SeatType> {
    if t == Some(ReservedType) then t else None
  }

  function NormalSeat(s: SeatSnap): SeatSnap {
    s.(seatType := NormalType(s.seatType))
  }

  function Normalize(l: Layout): Layout {
    l.(seats := seq(|l.seats|, k requires 0 <= k < |l.seats| => NormalSeat(l.seats[k])))
  }

  // ---------- Restoring, one row at a time

  /** The new rows so far, and where each snapshot entry went. The source keeps the first two maps only. */
  datatype Work = Work(store: Store, sectionMap: map<Id, Id>, tableMap: map<Id, Id>, seatMap: map<Id, Id>)

  function Find(m: map<Id, Id>, id: Option<Id>): Option<Id> {
    if id.Some? && id.value in m then Some(m[id.value]) else None
  }

  function Remember(m: map<Id, Id>, id: Option<Id>, newId: Id): map<Id, Id> {
    if id.Some? then m[id.value := newId] else m
  }

  predicate SectionNameTaken(s: Store, name: string) {
    exists id :: id in s.sections && s.sections[id].name == name
  }

  predicate TableNameTaken(s: Store, sectionId: Id, name: string) {
    exists id :: id in s.tables && s.tables[id].sectionId == sectionId && s.tables[id].name == name
  }

  function SectionOf(s: SectionSnap): SectionRow {
    SectionRow(s.name, s.order, s.x, s.y, s.width, s.height, Some(s.meta))
  }

  function TableOf(t: TableSnap, sectionId: Id): TableRow {
    TableRow(sectionId, t.name, t.order, t.x, t.y, t.capacity, Some(t.meta))
  }

  function SeatOf(s: SeatSnap, sectionId: Id, tableId: Id): SeatRow {
    SeatRow(sectionId, Some(tableId), Some(s.number), s.caption, Some(s.x), Some(s.y), Some(s.rotation),
            Some(s.seatType.GetOr(Standard)), s.status, Some(s.meta))
  }

  /** None: the database refuses the row and the transaction is rolled back. */
  function AddSection(w: Work, s: SectionSnap): Option<Work> {
    if SectionNameTaken(w.store, s.name) then None
    else
      var id := w.store.next;
      Some(w.(store := w.store.(sections := w.store.sections[id := SectionOf(s)], next := id + 1),
              sectionMap := Remember(w.sectionMap, s.id, id)))
  }

  function AddTable(w: Work, t: TableSnap): Option<Work> {
    var sectionId := Find(w.sectionMap, t.sectionId);
    if sectionId.None? then Some(w)
    else if TableNameTaken(w.store, sectionId.value, t.name) then None
    else
      var id := w.store.next;
      Some(w.(store := w.store.(tables := w.store.tables[id := TableOf(t, sectionId.value)], next := id + 1),
              tableMap := Remember(w.tableMap, t.id, id)))
  }

  function AddSeat(w: Work, s: SeatSnap): Work {
    var sectionId, tableId := Find(w.sectionMap, s.sectionId), Find(w.tableMap, s.tableId);
    if sectionId.None? || tableId.None? then w
    else
      var id := w.store.next;
      w.(store := w.store.(seats := w.store.seats[id := SeatOf(s, sectionId.value, tableId.value)], next := id + 1),
         seatMap := Remember(w.seatMap, s.id, id))
  }

  function AddSections(w: Work, xs: seq<SectionSnap>): Option<Work> {
    if xs == [] then Some(w)
    else
      var before := AddSections(w, xs[..|xs| - 1]);
      if before.None? then None else AddSection(before.value, xs[|xs| - 1])
  }

  function AddTables(w: Work, xs: seq<TableSnap>): Option<Work> {
    if xs == [] then Some(w)
    else
      var before := AddTables(w, xs[..|xs| - 1]);
      if before.None? then None else AddTable(before.value, xs[|xs| - 1])
  }

  function AddSeats(w: Work, xs: seq<SeatSnap>): Work {
    if xs == [] then w else AddSeat(AddSeats(w, xs[..|xs| - 1]), xs[|xs| - 1])
  }

  function Cleared(s: Store): Work {
    Work(Store(map[], map[], map[], s.next), map[], map[], map[])
  }

  /** The whole transaction. */
  function Restore(s: Store, saved: Layout): Option<Work> {
    var snap := Normalize(saved);
    var sections := AddSections(Cleared(s), snap.sections);
    if sections.None? then None
    else
      var tables := AddTables(sections.value, snap.tables);
      if tables.None? then None else Some(AddSeats(tables.value, snap.seats))
  }

  // ---------- The service

  class LayoutStore {
    var store: Store

    /** False: a unique index refused a row, and nothing has changed. */
    method RestoreVersion(saved: Layout) returns (ok: bool)
      modifies this
      ensures ok == Restore(old(store), saved).Some?
      ensures store == if ok then Restore(old(store), saved).value.store else old(store)
    {
      var before := store;
      var snap := Normalize(saved);
      var w := Cleared(store);
      for k := 0 to |snap.sections|
        invariant AddSections(Cleared(before), snap.sections[..k]) == Some(w)
      {
        assert snap.sections[..k + 1][..k] == snap.sections[..k];
        var added := AddSection(w, snap.sections[k]);
        if added.None? {
          FailedSections(Cleared(before), snap.sections, k + 1);
          return false;
        }
        w := added.value;
      }
      assert snap.sections[..|snap.sections|] == snap.sections;
      ghost var withSections := w;
      for k := 0 to |snap.tables|
        invariant AddTables(withSections, snap.tables[..k]) == Some(w)
      {
        assert snap.tables[..k + 1][..k] == snap.tables[..k];
        var added := AddTable(w, snap.tables[k]);
        if added.None? {
          FailedTables(withSections, snap.tables, k + 1);
          return false;
        }
        w := added.value;
      }
      assert snap.tables[..|snap.tables|] == snap.tables;
      ghost var withTables := w;
      for k := 0 to |snap.seats|
        invariant AddSeats(withTables, snap.seats[..k]) == w
      {
        assert snap.seats[..k + 1][..k] == snap.seats[..k];
        w := AddSeat(w, snap.seats[k]);
      }
      assert snap.seats[..|snap.seats|] == snap.seats;
      store := w.store;
      ok := true;
    }
  }

  lemma {:induction false} FailedSections(w: Work, xs: seq<SectionSnap>, n: nat)
    requires n <= |xs| && AddSections(w, xs[..n]).None?
    ensures AddSections(w, xs).None?
  {
    if n < |xs| {
      assert xs[..|xs| - 1][..n] == xs[..n];
      FailedSections(w, xs[..|xs| - 1], n);
    } else {
      assert xs[..n] == xs;
    }
  }

  lemma {:induction false} FailedTables(w: Work, xs: seq<TableSnap>, n: nat)
    requires n <= |xs| && AddTables(w, xs[..n]).None?
    ensures AddTables(w, xs).None?
  {
    if n < |xs| {
      assert xs[..|xs| - 1][..n] == xs[..n];
      FailedTables(w, xs[..|xs| - 1], n);
    } else {
      assert xs[..n] == xs;
    }
  }
}
