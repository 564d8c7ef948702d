/** The geometry operations of the layout service (layout-write.service.ts): rows and history are updated in place. */
module LayoutServices {
  import opened Outcomes
  import opened GeometryHistory
  import opened GeometryOutcomes

  class LayoutService {
    var rows: Rows
    var history: map<Id, seq<Entry>>

    ghost function Now(): Db
      reads this
    {
      Db(rows, history)
    }

    function Entries(e: Id): seq<Entry>
      reads this
    {
      if e in history then history[e] else []
    }

    /** True is returned as Done, false as NothingToDo, and each exception as its own outcome. */
    method ApplyGeometry(e: Id, requests: seq<Requested>) returns (outcome: Outcome)
      modifies this
      ensures outcome == Judge(old(rows), e, requests)
      ensures Now() == ApplyStep(old(Now()), e, requests)
      ensures ApplyOutcome(old(Now()), e, requests, outcome, Now())
    {
      ApplyDoes(Now(), e, requests);
      hide ApplyOutcome, AppliedOnly, Written, CurrentGeometry, MaxPosition, AllFound, Requested.IsValid;
      if requests == [] {
        return NothingToDo;
      }
      if !IdsDistinct(requests) {
        return DuplicateId;
      }
      if !AllValid(requests) {
        return InvalidGeometry;
      }
      if !AllFound(rows, e, requests) {
        return EntityNotFound;
      }
      var changes := ToChanges(requests);
      FoundArePresent(rows, e, requests);
      var before := CurrentGeometry(rows, changes);
      history := history[e := AppliedOnly(Entries(e))];
      UpdateRows(changes);
      var kept := Entries(e);
      history := history[e := kept + [Entry(MaxPosition(kept) + 1, before, changes, true)]];
      assert history == old(history)[e := kept + [Entry(MaxPosition(kept) + 1, before, changes, true)]];
      outcome := Done;
    }

    method UpdateRows(changes: seq<Change>)
      requires AllPresent(rows, changes)
      modifies this`rows
      ensures rows == Written(old(rows), changes)
    {
      for k := 0 to |changes|
        invariant AllPresent(old(rows), changes[..k]) && rows == Written(old(rows), changes[..k])
      {
        var change := changes[k];
        assert changes[..k + 1][..k] == changes[..k];
        rows := rows[change.key := rows[change.key].(geometry := change.geometry)];
      }
      assert changes[..|changes|] == changes;
    }

    /** NothingToDo hands over to the saved layout versions. */
    method Undo(e: Id) returns (outcome: Outcome)
      modifies this
      ensures (Now(), outcome) == UndoStep(old(Now()), e)
      ensures MoveOutcome(old(Now()), e, true, outcome, Now())
    {
      hide MoveOutcome;
      UndoDoes(Now(), e);
      var entries := Entries(e);
      var i := NewestApplied(entries);
      if i < 0 {
        return NothingToDo;
      }
      if !AllPresent(rows, entries[i].before) {
        return RowMissing;
      }
      UpdateRows(entries[i].before);
      history := history[e := entries[i := entries[i].(applied := false)]];
      outcome := Done;
    }

    method Redo(e: Id) returns (outcome: Outcome)
      modifies this
      ensures (Now(), outcome) == RedoStep(old(Now()), e)
      ensures MoveOutcome(old(Now()), e, false, outcome, Now())
    {
      hide MoveOutcome;
      RedoDoes(Now(), e);
      var entries := Entries(e);
      var i := OldestUnapplied(entries);
      if i < 0 {
        return NothingToDo;
      }
      if !AllPresent(rows, entries[i].after) {
        return RowMissing;
      }
      UpdateRows(entries[i].after);
      history := history[e := entries[i := entries[i].(applied := true)]];
      outcome := Done;
    }
  }
}
