/**
  Geometry changes with undo and redo (layout-write.service.ts, applyGeometry, undo, redo). The database keeps,
  for each event, a table of patches with a position and an `applied` flag. Seat, table and section rows are one
  map keyed by kind and id; a transaction either takes effect as a whole or not at all.
 */
module GeometryHistory {
  import opened Outcomes

  type Id = string

  datatype Kind = SeatKind | TableKind | SectionKind

  datatype Key = Key(kind: Kind, id: Id)

  /** Geometry columns; any of them may be null. */
  datatype Geometry = Geometry(
    x: Option<real>, y: Option<real>, width: Option<real>, height: Option<real>, rotation: Option<real>)

  datatype Row = Row(eventId: Id, geometry: Geometry)

  type Rows = map<Key, Row>

  datatype Change = Change(key: Key, geometry: Geometry)

  datatype Entry = Entry(position: int, before: seq<Change>, after: seq<Change>, applied: bool)

  /** A number from the caller, which may be NaN or infinite. */
  datatype Number = Finite(value: real) | NotFinite

  datatype Requested = Requested(key: Key, x: Number, y: Number, width: Number, height: Number, rotation: Number) {

    predicate IsValid() {
      && x.Finite? && y.Finite? && width.Finite? && height.Finite? && rotation.Finite?
      && width.value > 0.0 && height.value > 0.0
    }

    function ToChange(): Change
      requires IsValid()
    {
      Change(key, Geometry(Some(x.value), Some(y.value), Some(width.value), Some(height.value), Some(rotation.value)))
    }
  }

  datatype Outcome = Done | NothingToDo | DuplicateId | InvalidGeometry | EntityNotFound | RowMissing

  datatype Db = Db(rows: Rows, history: map<Id, seq<Entry>>) {

    function Entries(e: Id): seq<Entry> {
      if e in history then history[e] else []
    }
  }

  // ---------- Queries

  /** The kind under which an id is found in an event; sections win over tables, tables over seats. */
  function KindIn(rows: Rows, e: Id, id: Id): Option<Kind> {
    if Key(SectionKind, id) in rows && rows[Key(SectionKind, id)].eventId == e then Some(SectionKind)
    else if Key(TableKind, id) in rows && rows[Key(TableKind, id)].eventId == e then Some(TableKind)
    else if Key(SeatKind, id) in rows && rows[Key(SeatKind, id)].eventId == e then Some(SeatKind)
    else None
  }

  predicate AllFound(rows: Rows, e: Id, requests: seq<Requested>) {
    forall k :: 0 <= k < |requests| ==> KindIn(rows, e, requests[k].key.id) == Some(requests[k].key.kind)
  }

  predicate IdsDistinct(requests: seq<Requested>) {
    forall a, b :: 0 <= a < b < |requests| ==> requests[a].key.id != requests[b].key.id
  }

  predicate AllValid(requests: seq<Requested>) {
    forall k :: 0 <= k < |requests| ==> requests[k].IsValid()
  }

  /** Index of the applied entry with the greatest position, or -1. */
  function NewestApplied(entries: seq<Entry>): (i: int)
    ensures -1 <= i < |entries|
    ensures i >= 0 ==> entries[i].applied && forall j :: 0 <= j < |entries| && entries[j].applied ==>
      entries[j].position <= entries[i].position
    ensures i < 0 ==> forall j :: 0 <= j < |entries| ==> !entries[j].applied
  {
    if entries == [] then -1
    else
      var n := |entries| - 1;
      var i := NewestApplied(entries[..n]);
      if entries[n].applied && (i < 0 || entries[n].position > entries[i].position) then n else i
  }

  /** Index of the unapplied entry with the least position, or -1. */
  function OldestUnapplied(entries: seq<Entry>): (i: int)
    ensures -1 <= i < |entries|
    ensures i >= 0 ==> !entries[i].applied && forall j :: 0 <= j < |entries| && !entries[j].applied ==>
      entries[i].position <= entries[j].position
    ensures i < 0 ==> forall j :: 0 <= j < |entries| ==> entries[j].applied
  {
    if entries == [] then -1
    else
      var n := |entries| - 1;
      var i := OldestUnapplied(entries[..n]);
      if !entries[n].applied && (i < 0 || entries[n].position < entries[i].position) then n else i
  }

  /** The greatest position, or -1 for an empty table. */
  function MaxPosition(entries: seq<Entry>): (m: int)
    ensures forall j :: 0 <= j < |entries| ==> entries[j].position <= m
    ensures if entries == [] then m == -1 else exists j :: 0 <= j < |entries| && entries[j].position == m
  {
    if entries == [] then -1
    else
      var n := |entries| - 1;
      var m := MaxPosition(entries[..n]);
      if n == 0 || entries[n].position > m then entries[n].position else m
  }

  // ---------- Writing

  predicate AllPresent(rows: Rows, changes: seq<Change>) {
    forall k :: 0 <= k < |changes| ==> changes[k].key in rows
  }

  /** The rows after the changes, in order. */
  function Written(rows: Rows, changes: seq<Change>): (r: Rows)
    requires AllPresent(rows, changes)
    ensures r.Keys == rows.Keys
  {
    if changes == [] then rows
    else
      var r, c := Written(rows, changes[..|changes| - 1]), changes[|changes| - 1];
      r[c.key := r[c.key].(geometry := c.geometry)]
  }

  function CurrentGeometry(rows: Rows, changes: seq<Change>): seq<Change>
    requires AllPresent(rows, changes)
  {
    seq(|changes|, k requires 0 <= k < |changes| => Change(changes[k].key, rows[changes[k].key].geometry))
  }

  function ToChanges(requests: seq<Requested>): (changes: seq<Change>)
    requires AllValid(requests)
    ensures |changes| == |requests|
  {
    seq(|requests|, k requires 0 <= k < |requests| => requests[k].ToChange())
  }

  function AppliedOnly(entries: seq<Entry>): seq<Entry> {
    Filter(entries, (entry: Entry) => entry.applied)
  }

  // ---------- The operations as functions

  function Judge(rows: Rows, e: Id, requests: seq<Requested>): Outcome {
    if requests == [] then NothingToDo
    else if !IdsDistinct(requests) then DuplicateId
    else if !AllValid(requests) then InvalidGeometry
    else if !AllFound(rows, e, requests) then EntityNotFound
    else Done
  }

  function ApplyStep(s: Db, e: Id, requests: seq<Requested>): Db {
    if Judge(s.rows, e, requests) != Done then s
    else
      var after := ToChanges(requests);
      assert AllPresent(s.rows, after) by { FoundArePresent(s.rows, e, requests); }
      var kept := AppliedOnly(s.Entries(e));
      var entry := Entry(MaxPosition(kept) + 1, CurrentGeometry(s.rows, after), after, true);
      Db(Written(s.rows, after), s.history[e := kept + [entry]])
  }

  lemma FoundArePresent(rows: Rows, e: Id, requests: seq<Requested>)
    requires AllValid(requests) && AllFound(rows, e, requests)
    ensures var after := ToChanges(requests);
      AllPresent(rows, after) && forall k :: 0 <= k < |after| ==> rows[after[k].key].eventId == e
  {
    forall k | 0 <= k < |requests|
      ensures ToChanges(requests)[k].key in rows && rows[ToChanges(requests)[k].key].eventId == e
    {
      assert KindIn(rows, e, requests[k].key.id) == Some(requests[k].key.kind);
    }
  }

  /** Replay one side of entry i and set its flag; nothing happens when a row is gone. */
  function Replay(s: Db, e: Id, i: int, changes: seq<Change>, applied: bool): (Db, Outcome)
    requires 0 <= i < |s.Entries(e)|
  {
    if !AllPresent(s.rows, changes) then (s, RowMissing)
    else
      (Db(Written(s.rows, changes), s.history[e := s.Entries(e)[i := s.Entries(e)[i].(applied := applied)]]), Done)
  }

  function UndoStep(s: Db, e: Id): (Db, Outcome) {
    var i := NewestApplied(s.Entries(e));
    if i < 0 then (s, NothingToDo) else Replay(s, e, i, s.Entries(e)[i].before, false)
  }

  function RedoStep(s: Db, e: Id): (Db, Outcome) {
    var i := OldestUnapplied(s.Entries(e));
    if i < 0 then (s, NothingToDo) else Replay(s, e, i, s.Entries(e)[i].after, true)
  }
}
