/**
  What applyGeometry must do, said of the numbers requested and the numbers stored (layout-write.service.ts). The
  service, its undo and its redo are proved to do it.
 */
module GeometryOutcomes {
  import opened Outcomes
  import opened Numbers
  import opened GeometryHistory
  import opened Timeline

  predicate AllNumbers(r: Requested) {
    r.x != NotFinite && r.y != NotFinite && r.width != NotFinite && r.height != NotFinite && r.rotation != NotFinite
  }

  /** Five numbers, and a positive size. */
  predicate Acceptable(r: Requested) {
    AllNumbers(r) && r.width.value > 0.0 && r.height.value > 0.0
  }

  /** The event has a row of that kind and id, and none of a kind that would hide it. */
  predicate Known(rows: Rows, e: Id, key: Key) {
    && InEvent(rows, e, key)
    && (key.kind != SectionKind ==> !InEvent(rows, e, Key(SectionKind, key.id)))
    && (key.kind == SeatKind ==> !InEvent(rows, e, Key(TableKind, key.id)))
  }

  predicate InEvent(rows: Rows, e: Id, key: Key) {
    key in rows && rows[key].eventId == e
  }

  /** The geometry columns hold exactly the requested numbers. */
  predicate Stores(g: Geometry, r: Requested)
    requires AllNumbers(r)
  {
    && g.x == Some(r.x.value) && g.y == Some(r.y.value)
    && g.width == Some(r.width.value) && g.height == Some(r.height.value) && g.rotation == Some(r.rotation.value)
  }

  predicate Repeats(requests: seq<Requested>) {
    exists a, b :: 0 <= a < b < |requests| && requests[a].key.id == requests[b].key.id
  }

  /** Why a call is refused, the first reason that applies, or Done. */
  predicate Decided(rows: Rows, e: Id, requests: seq<Requested>, outcome: Outcome) {
    if |requests| == 0 then outcome == NothingToDo
    else if Repeats(requests) then outcome == DuplicateId
    else if exists k :: 0 <= k < |requests| && !Acceptable(requests[k]) then outcome == InvalidGeometry
    else if exists k :: 0 <= k < |requests| && !Known(rows, e, requests[k].key) then outcome == EntityNotFound
    else outcome == Done
  }

  predicate Requests(requests: seq<Requested>, key: Key) {
    exists k :: 0 <= k < |requests| && requests[k].key == key
  }

  /** Every requested row keeps its event and holds the requested numbers; every other row is as it was. */
  ghost predicate RowsMoved(before: Rows, requests: seq<Requested>, after: Rows) {
    && after.Keys == before.Keys
    && (forall k :: 0 <= k < |requests| ==>
          && AllNumbers(requests[k]) && requests[k].key in before
          && after[requests[k].key].eventId == before[requests[k].key].eventId
          && Stores(after[requests[k].key].geometry, requests[k]))
    && (forall key :: key in before && !Requests(requests, key) ==> after[key] == before[key])
  }

  /** The entry lists the old and the new geometry of every requested row, in order. */
  ghost predicate Records(entry: Entry, rows: Rows, requests: seq<Requested>) {
    && entry.applied && |entry.before| == |entry.after| == |requests|
    && forall k :: 0 <= k < |requests| ==>
         && AllNumbers(requests[k]) && requests[k].key in rows
         && entry.after[k].key == entry.before[k].key == requests[k].key
         && Stores(entry.after[k].geometry, requests[k]) && entry.before[k].geometry == rows[requests[k].key].geometry
  }

  /** The undone entries are gone, the applied ones stay in their order, and the new one is the last. */
  ghost predicate EntryAdded(before: seq<Entry>, rows: Rows, requests: seq<Requested>, after: seq<Entry>) {
    && after != [] && Records(after[|after| - 1], rows, requests)
    && after[..|after| - 1] == Filter(before, (entry: Entry) => entry.applied)
    && (forall k :: 0 <= k < |after| - 1 ==> after[k].position < after[|after| - 1].position)
  }

  ghost predicate ApplyOutcome(before: Db, e: Id, requests: seq<Requested>, outcome: Outcome, after: Db) {
    && Decided(before.rows, e, requests, outcome)
    && if outcome != Done then after == before
       else
         && RowsMoved(before.rows, requests, after.rows)
         && EntryAdded(before.Entries(e), before.rows, requests, after.Entries(e))
         && forall other :: other != e ==> after.Entries(other) == before.Entries(other)
  }

  // ---------- The service does it

  lemma KnownMeans(rows: Rows, e: Id, r: Requested)
    ensures KindIn(rows, e, r.key.id) == Some(r.key.kind) <==> Known(rows, e, r.key)
  {
  }

  lemma AcceptableMeans(r: Requested)
    ensures r.IsValid() <==> Acceptable(r)
    ensures r.IsValid() ==> AllNumbers(r) && r.ToChange().key == r.key && Stores(r.ToChange().geometry, r)
  {
  }

  lemma JudgeDecides(rows: Rows, e: Id, requests: seq<Requested>)
    ensures Decided(rows, e, requests, Judge(rows, e, requests))
  {
    hide KindIn, Known, Acceptable, Requested.IsValid;
    forall k | 0 <= k < |requests|
      ensures KindIn(rows, e, requests[k].key.id) == Some(requests[k].key.kind) <==> Known(rows, e, requests[k].key)
      ensures requests[k].IsValid() <==> Acceptable(requests[k])
    {
      KnownMeans(rows, e, requests[k]);
      AcceptableMeans(requests[k]);
    }
  }

  lemma WrittenMoves(rows: Rows, requests: seq<Requested>)
    requires IdsDistinct(requests) && AllValid(requests) && AllPresent(rows, ToChanges(requests))
    ensures RowsMoved(rows, requests, Written(rows, ToChanges(requests)))
  {
    hide Written, Stores, Requested.IsValid, Requested.ToChange, AllNumbers;
    var changes := ToChanges(requests);
    forall k | 0 <= k < |requests|
      ensures AllNumbers(requests[k]) && changes[k].key == requests[k].key && Stores(changes[k].geometry, requests[k])
    {
      AcceptableMeans(requests[k]);
    }
    RequestKeysDistinct(requests);
    WrittenAt(rows, changes);
  }

  lemma AcceptedRecords(rows: Rows, requests: seq<Requested>, position: int)
    requires AllValid(requests) && AllPresent(rows, ToChanges(requests))
    ensures var after := ToChanges(requests);
      Records(Entry(position, CurrentGeometry(rows, after), after, true), rows, requests)
  {
    hide Stores, Requested.IsValid, Requested.ToChange, AllNumbers;
    forall k | 0 <= k < |requests|
      ensures AllNumbers(requests[k]) && ToChanges(requests)[k].key == requests[k].key
      ensures Stores(ToChanges(requests)[k].geometry, requests[k])
    {
      AcceptableMeans(requests[k]);
    }
  }

  lemma ApplyDoes(s: Db, e: Id, requests: seq<Requested>)
    ensures ApplyOutcome(s, e, requests, Judge(s.rows, e, requests), ApplyStep(s, e, requests))
  {
    hide Written, CurrentGeometry, Requested.IsValid, AllFound, Decided, Records, RowsMoved;
    JudgeDecides(s.rows, e, requests);
    if Judge(s.rows, e, requests) == Done {
      FoundArePresent(s.rows, e, requests);
      WrittenMoves(s.rows, requests);
      AcceptedRecords(s.rows, requests, MaxPosition(AppliedOnly(s.Entries(e))) + 1);
      var kept, after := AppliedOnly(s.Entries(e)), ApplyStep(s, e, requests).Entries(e);
      assert after[..|after| - 1] == kept;
    }
  }

  /** After an accepted change, undo gives the old rows back and redo stores the requested numbers again. */
  lemma RedoStoresAgain(s: Db, e: Id, t: Timeline, requests: seq<Requested>)
    requires Refines(s, e, t) && Judge(s.rows, e, requests) == Done
    ensures var changed := ApplyStep(s, e, requests); var undone := UndoStep(changed, e);
      && undone.0.rows == s.rows && undone.1 == Done
      && RowsMoved(s.rows, requests, RedoStep(undone.0, e).0.rows) && RedoStep(undone.0, e).1 == Done
  {
    hide Judge, Written, RowsMoved, Links, LayoutOf, NewestApplied, OldestUnapplied;
    var changed, t' := ApplyStep(s, e, requests), Act(t, e, Edit(requests));
    ApplyDoes(s, e, requests);
    CallRefines(s, e, t, Edit(requests));
    EditGrows(s, e, t, requests);
    UndoRestoresRows(s, e, t, requests);
    RedoAfterUndo(changed, e, t');
    BackRefines(changed, e, t');
    ForwardRefines(UndoStep(changed, e).0, e, Act(t', e, Back));
  }

  lemma EditGrows(s: Db, e: Id, t: Timeline, requests: seq<Requested>)
    requires Refines(s, e, t) && Judge(s.rows, e, requests) == Done
    ensures Act(t, e, Edit(requests)).past != []
  {
    JudgeIsLocal(s.rows, e, requests);
  }

  // ---------- Undo and redo, on any rows and any table of entries

  /** Entry i is the one to take: with that flag, and the greatest position (for undo) or the least (for redo). */
  predicate Taken(entries: seq<Entry>, i: int, undo: bool) {
    && 0 <= i < |entries| && entries[i].applied == undo
    && forall j :: 0 <= j < |entries| && entries[j].applied == undo ==>
         if undo then entries[j].position <= entries[i].position else entries[i].position <= entries[j].position
  }

  /** No later change names the same row. */
  predicate IsLast(changes: seq<Change>, k: nat)
    requires k < |changes|
  {
    forall j :: k < j < |changes| ==> changes[j].key != changes[k].key
  }

  /** Each row named by the changes gets the geometry of its last change; every other row is as it was. */
  ghost predicate RowsReplayed(before: Rows, changes: seq<Change>, after: Rows) {
    && after.Keys == before.Keys
    && (forall k :: 0 <= k < |changes| && IsLast(changes, k) ==>
          && changes[k].key in before
          && after[changes[k].key] == Row(before[changes[k].key].eventId, changes[k].geometry))
    && (forall key :: key in before && (forall k :: 0 <= k < |changes| ==> changes[k].key != key) ==>
          after[key] == before[key])
  }

  /** A row that is to be written does not exist any more. */
  predicate Gone(rows: Rows, changes: seq<Change>) {
    exists k :: 0 <= k < |changes| && changes[k].key !in rows
  }

  ghost predicate Replayed(before: Db, e: Id, i: int, undo: bool, outcome: Outcome, after: Db)
    requires Taken(before.Entries(e), i, undo)
  {
    var entry := before.Entries(e)[i];
    var changes := if undo then entry.before else entry.after;
    if Gone(before.rows, changes)
    then outcome == RowMissing && after == before
    else
      && outcome == Done && RowsReplayed(before.rows, changes, after.rows)
      && after.Entries(e) == before.Entries(e)[i := Entry(entry.position, entry.before, entry.after, !undo)]
      && forall other :: other != e ==> after.Entries(other) == before.Entries(other)
  }

  ghost predicate MoveOutcome(before: Db, e: Id, undo: bool, outcome: Outcome, after: Db) {
    if exists j :: 0 <= j < |before.Entries(e)| && before.Entries(e)[j].applied == undo
    then exists i :: Taken(before.Entries(e), i, undo) && Replayed(before, e, i, undo, outcome, after)
    else outcome == NothingToDo && after == before
  }

  lemma {:induction false} WrittenReplays(rows: Rows, changes: seq<Change>)
    requires AllPresent(rows, changes)
    ensures RowsReplayed(rows, changes, Written(rows, changes))
  {
    if changes != [] {
      var init, last := changes[..|changes| - 1], changes[|changes| - 1];
      assert changes == init + [last];
      WrittenReplays(rows, init);
      SameEvent(rows, init, last.key);
      OneMoreChange(rows, init, Written(rows, init), last);
    }
  }

  lemma OneMoreChange(rows: Rows, init: seq<Change>, between: Rows, last: Change)
    requires RowsReplayed(rows, init, between) && last.key in rows
    requires between[last.key].eventId == rows[last.key].eventId
    ensures RowsReplayed(rows, init + [last], between[last.key := between[last.key].(geometry := last.geometry)])
  {
    var changes := init + [last];
    forall k | 0 <= k < |init| && IsLast(changes, k) ensures IsLast(init, k) && init[k].key != last.key {
      assert changes[|init|].key != changes[k].key;
      assert forall j :: k < j < |init| ==> init[j] == changes[j];
    }
    forall key | key in rows && (forall k :: 0 <= k < |changes| ==> changes[k].key != key)
      ensures key != last.key && forall k :: 0 <= k < |init| ==> init[k].key != key
    {
      assert changes[|init|] == last;
      assert forall k :: 0 <= k < |init| ==> init[k] == changes[k];
    }
  }

  lemma {:induction false} SameEvent(rows: Rows, changes: seq<Change>, key: Key)
    requires AllPresent(rows, changes) && key in rows
    ensures Written(rows, changes)[key].eventId == rows[key].eventId
  {
    if changes != [] { SameEvent(rows, changes[..|changes| - 1], key); }
  }

  lemma ReplayDoes(s: Db, e: Id, i: int, undo: bool)
    requires Taken(s.Entries(e), i, undo)
    ensures var changes := if undo then s.Entries(e)[i].before else s.Entries(e)[i].after;
      var r := Replay(s, e, i, changes, !undo); Replayed(s, e, i, undo, r.1, r.0)
  {
    hide Written, RowsReplayed;
    var changes := if undo then s.Entries(e)[i].before else s.Entries(e)[i].after;
    if AllPresent(s.rows, changes) {
      WrittenReplays(s.rows, changes);
      assert Written(s.rows, changes).Keys == s.rows.Keys;
    }
    assert Gone(s.rows, changes) <==> !AllPresent(s.rows, changes);
  }

  lemma UndoDoes(s: Db, e: Id)
    ensures MoveOutcome(s, e, true, UndoStep(s, e).1, UndoStep(s, e).0)
  {
    hide Replay, Replayed;
    var i := NewestApplied(s.Entries(e));
    if i >= 0 {
      assert Taken(s.Entries(e), i, true);
      ReplayDoes(s, e, i, true);
    }
  }

  lemma RedoDoes(s: Db, e: Id)
    ensures MoveOutcome(s, e, false, RedoStep(s, e).1, RedoStep(s, e).0)
  {
    hide Replay, Replayed;
    var i := OldestUnapplied(s.Entries(e));
    if i >= 0 {
      assert Taken(s.Entries(e), i, false);
      ReplayDoes(s, e, i, false);
    }
  }
}
