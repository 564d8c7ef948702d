/**
  What the patch table is for: it behaves as a past/present/future stack of whole layouts, and the
  stack knows nothing of patches, positions or flags.
 */
module Timeline {
  import opened Numbers
  import opened Outcomes
  import opened GeometryHistory

  /** All rows of one event. */
  function LayoutOf(rows: Rows, e: Id): Rows {
    map key | key in rows && rows[key].eventId == e :: rows[key]
  }

  datatype Timeline = Timeline(past: seq<Rows>, present: Rows, future: seq<Rows>)

  datatype Action = Edit(requests: seq<Requested>) | Back | Forward

  // ---------- The stack

  ghost function Act(t: Timeline, e: Id, a: Action): Timeline {
    match a
    case Edit(requests) =>
      if Judge(t.present, e, requests) != Done then t
      else
        var changes := ToChanges(requests);
        assert AllPresent(t.present, changes) by { FoundArePresent(t.present, e, requests); }
        Timeline(t.past + [t.present], Written(t.present, changes), [])
    case Back =>
      if t.past == [] then t
      else Timeline(t.past[..|t.past| - 1], t.past[|t.past| - 1], [t.present] + t.future)
    case Forward =>
      if t.future == [] then t
      else Timeline(t.past + [t.present], t.future[0], t.future[1..])
  }

  /** One call of the service. */
  function Call(s: Db, e: Id, a: Action): Db {
    match a
    case Edit(requests) => ApplyStep(s, e, requests)
    case Back => UndoStep(s, e).0
    case Forward => RedoStep(s, e).0
  }

  // ---------- The refinement relation

  ghost function Layouts(t: Timeline): (all: seq<Rows>)
    ensures |all| == |t.past| + 1 + |t.future|
  {
    t.past + [t.present] + t.future
  }

  ghost predicate KeysDistinct(changes: seq<Change>) {
    forall a, b :: 0 <= a < b < |changes| ==> changes[a].key != changes[b].key
  }

  /** The entry leads from one layout to the next and back. */
  ghost predicate Links(older: Rows, entry: Entry, newer: Rows) {
    && AllPresent(older, entry.after) && AllPresent(newer, entry.before)
    && newer == Written(older, entry.after) && older == Written(newer, entry.before)
  }

  ghost predicate Refines(s: Db, e: Id, t: Timeline) {
    var entries, all := s.Entries(e), Layouts(t);
    && t.present == LayoutOf(s.rows, e)
    && |entries| + 1 == |all|
    && Numbered(entries, |t.past|)
    && (forall k :: 0 <= k < |entries| ==> Links(all[k], entries[k], all[k + 1]))
  }

  // ---------- Writing rows

  /** With distinct keys, each change reaches its own row and no other row moves. */
  lemma {:induction false} WrittenAt(rows: Rows, changes: seq<Change>)
    requires AllPresent(rows, changes) && KeysDistinct(changes)
    ensures var r := Written(rows, changes);
      && (forall k :: 0 <= k < |changes| ==>
            r[changes[k].key] == rows[changes[k].key].(geometry := changes[k].geometry))
      && (forall key :: key in rows && (forall k :: 0 <= k < |changes| ==> changes[k].key != key) ==>
            r[key] == rows[key])
  {
    if changes != [] {
      var init, last := changes[..|changes| - 1], changes[|changes| - 1];
      WrittenAt(rows, init);
      assert forall k :: 0 <= k < |init| ==> init[k] == changes[k] && init[k].key != last.key;
    }
  }

  /** Writing the recorded geometry back restores every row, nulls included. */
  lemma WritingBack(rows: Rows, changes: seq<Change>)
    requires AllPresent(rows, changes) && KeysDistinct(changes)
    ensures var before := CurrentGeometry(rows, changes);
      AllPresent(Written(rows, changes), before) && Written(Written(rows, changes), before) == rows
  {
    hide Written;
    var before, after := CurrentGeometry(rows, changes), Written(rows, changes);
    WrittenAt(rows, changes);
    WrittenAt(after, before);
    var r := Written(after, before);
    forall key | key in rows ensures r[key] == rows[key] {
      if k :| 0 <= k < |changes| && changes[k].key == key {
        assert before[k].key == key;
      } else {
        assert forall k :: 0 <= k < |changes| ==> before[k].key != key;
      }
    }
  }

  /** Writes to an event's rows are writes to its layout, and leave every other layout alone. */
  lemma {:induction false} WrittenLayout(rows: Rows, e: Id, other: Id, changes: seq<Change>)
    requires AllPresent(LayoutOf(rows, e), changes)
    ensures AllPresent(rows, changes)
    ensures LayoutOf(Written(rows, changes), e) == Written(LayoutOf(rows, e), changes)
    ensures other != e ==> LayoutOf(Written(rows, changes), other) == LayoutOf(rows, other)
  {
    if changes != [] {
      var init := changes[..|changes| - 1];
      WrittenLayout(rows, e, other, init);
      var key := changes[|changes| - 1].key;
      assert key in LayoutOf(rows, e) && key in Written(LayoutOf(rows, e), init);
      assert key in LayoutOf(Written(rows, init), e);
    }
  }

  lemma RequestKeysDistinct(requests: seq<Requested>)
    requires AllValid(requests) && IdsDistinct(requests)
    ensures KeysDistinct(ToChanges(requests))
  {
    assert forall a, b :: 0 <= a < b < |requests| ==> requests[a].key.id != requests[b].key.id;
  }

  lemma JudgeIsLocal(rows: Rows, e: Id, requests: seq<Requested>)
    ensures Judge(rows, e, requests) == Judge(LayoutOf(rows, e), e, requests)
  {
    assert forall id :: KindIn(rows, e, id) == KindIn(LayoutOf(rows, e), e, id);
  }

  lemma CurrentIsLocal(rows: Rows, e: Id, changes: seq<Change>)
    requires AllPresent(LayoutOf(rows, e), changes)
    ensures AllPresent(rows, changes) && CurrentGeometry(rows, changes) == CurrentGeometry(LayoutOf(rows, e), changes)
  {
    assert forall k :: 0 <= k < |changes| ==> changes[k].key in LayoutOf(rows, e);
  }

  // ---------- Entries

  ghost predicate Numbered(entries: seq<Entry>, m: nat) {
    forall k :: 0 <= k < |entries| ==> entries[k].position == k && entries[k].applied == (k < m)
  }

  /** The applied entries are a prefix, and their positions run from 0. */
  lemma AppliedPrefix(entries: seq<Entry>, m: nat)
    requires m <= |entries| && Numbered(entries, m)
    ensures AppliedOnly(entries) == entries[..m] && MaxPosition(entries[..m]) == m - 1
  {
    AppliedAre(entries, m);
    var prefix := entries[..m];
    if m > 0 { assert prefix[m - 1].position == m - 1; }
  }

  lemma NothingApplied()
    ensures AppliedOnly([]) == []
  {
  }

  lemma OneMoreApplied(entries: seq<Entry>)
    requires entries != []
    ensures var n := |entries| - 1;
      AppliedOnly(entries) == AppliedOnly(entries[..n]) + if entries[n].applied then [entries[n]] else []
  {
  }

  lemma {:induction false} AppliedAre(entries: seq<Entry>, m: nat)
    requires m <= |entries| && Numbered(entries, m)
    ensures AppliedOnly(entries) == entries[..m]
  {
    hide AppliedOnly;
    if entries == [] {
      NothingApplied();
    } else {
      var n := |entries| - 1;
      AppliedAre(entries[..n], Min(m, n));
      OneMoreApplied(entries);
      assert entries[..n][..Min(m, n)] == entries[..Min(m, n)];
    }
  }

  // ---------- Each call follows the stack

  lemma EditRefines(s: Db, e: Id, t: Timeline, requests: seq<Requested>)
    requires Refines(s, e, t)
    ensures Refines(ApplyStep(s, e, requests), e, Act(t, e, Edit(requests)))
  {
    hide Written, LayoutOf, AppliedOnly, CurrentGeometry, Layouts;
    JudgeIsLocal(s.rows, e, requests);
    if Judge(s.rows, e, requests) == Done {
      var after := ToChanges(requests);
      FoundArePresent(t.present, e, requests);
      RequestKeysDistinct(requests);
      CurrentIsLocal(s.rows, e, after);
      WrittenLayout(s.rows, e, e, after);
      WritingBack(t.present, after);
      AppliedPrefix(s.Entries(e), |t.past|);
      PushRefines(s, e, t, Entry(|t.past|, CurrentGeometry(t.present, after), after, true), Written(t.present, after),
                  ApplyStep(s, e, requests));
    }
  }

  /** A new change keeps the applied entries and discards the future. */
  lemma PushRefines(s: Db, e: Id, t: Timeline, entry: Entry, newer: Rows, s': Db)
    requires Refines(s, e, t) && Links(t.present, entry, newer) && entry.position == |t.past| && entry.applied
    requires s'.Entries(e) == s.Entries(e)[..|t.past|] + [entry] && LayoutOf(s'.rows, e) == newer
    ensures Refines(s', e, Timeline(t.past + [t.present], newer, []))
  {
    hide Links, LayoutOf;
    var t' := Timeline(t.past + [t.present], newer, []);
    forall k | 0 <= k < |s'.Entries(e)| ensures Links(Layouts(t')[k], s'.Entries(e)[k], Layouts(t')[k + 1]) {
      if k < |t.past| {
        assert Layouts(t')[k] == Layouts(t)[k] && Layouts(t')[k + 1] == Layouts(t)[k + 1];
      }
    }
  }

  lemma NewestIsLast(s: Db, e: Id, t: Timeline)
    requires Refines(s, e, t)
    ensures NewestApplied(s.Entries(e)) == |t.past| - 1
    ensures OldestUnapplied(s.Entries(e)) == if t.future == [] then -1 else |t.past|
  {
    var entries, m := s.Entries(e), |t.past|;
    if m > 0 { assert entries[m - 1].applied && entries[m - 1].position == m - 1; }
    if m < |entries| { assert !entries[m].applied && entries[m].position == m; }
  }

  /** Moving the present one entry along the stack is replaying that entry and flipping its flag. */
  lemma ReplayRefines(s: Db, e: Id, t: Timeline, t': Timeline, i: int, changes: seq<Change>, applied: bool)
    requires Refines(s, e, t) && 0 <= i < |s.Entries(e)| && Layouts(t') == Layouts(t)
    requires |t.past| == (if applied then i else i + 1) && |t'.past| == (if applied then i + 1 else i)
    requires AllPresent(t.present, changes) && t'.present == Written(t.present, changes)
    ensures Replay(s, e, i, changes, applied).1 == Done
    ensures Refines(Replay(s, e, i, changes, applied).0, e, t')
  {
    hide Layouts, Written, LayoutOf;
    WrittenLayout(s.rows, e, e, changes);
  }

  lemma BackRefines(s: Db, e: Id, t: Timeline)
    requires Refines(s, e, t)
    ensures UndoStep(s, e).1 == if t.past == [] then NothingToDo else Done
    ensures Refines(UndoStep(s, e).0, e, Act(t, e, Back))
  {
    NewestIsLast(s, e, t);
    if t.past != [] {
      BackLink(s, e, t);
      ReplayRefines(s, e, t, Act(t, e, Back), |t.past| - 1, s.Entries(e)[|t.past| - 1].before, false);
    }
  }

  lemma BackLink(s: Db, e: Id, t: Timeline)
    requires Refines(s, e, t) && t.past != []
    ensures Links(t.past[|t.past| - 1], s.Entries(e)[|t.past| - 1], t.present)
    ensures Layouts(Act(t, e, Back)) == Layouts(t)
  {
    var i := |t.past| - 1;
    assert Links(Layouts(t)[i], s.Entries(e)[i], Layouts(t)[i + 1]);
    assert Layouts(t)[i] == t.past[i] && Layouts(t)[i + 1] == t.present;
  }

  lemma ForwardRefines(s: Db, e: Id, t: Timeline)
    requires Refines(s, e, t)
    ensures RedoStep(s, e).1 == if t.future == [] then NothingToDo else Done
    ensures Refines(RedoStep(s, e).0, e, Act(t, e, Forward))
  {
    NewestIsLast(s, e, t);
    if t.future != [] {
      ForwardLink(s, e, t);
      ReplayRefines(s, e, t, Act(t, e, Forward), |t.past|, s.Entries(e)[|t.past|].after, true);
    }
  }

  lemma ForwardLink(s: Db, e: Id, t: Timeline)
    requires Refines(s, e, t) && t.future != []
    ensures Links(t.present, s.Entries(e)[|t.past|], t.future[0])
    ensures Layouts(Act(t, e, Forward)) == Layouts(t)
  {
    var i := |t.past|;
    assert Links(Layouts(t)[i], s.Entries(e)[i], Layouts(t)[i + 1]);
    assert Layouts(t)[i] == t.present && Layouts(t)[i + 1] == t.future[0];
  }

  lemma CallRefines(s: Db, e: Id, t: Timeline, a: Action)
    requires Refines(s, e, t)
    ensures Refines(Call(s, e, a), e, Act(t, e, a))
  {
    match a
    case Edit(requests) => EditRefines(s, e, t, requests);
    case Back => BackRefines(s, e, t);
    case Forward => ForwardRefines(s, e, t);
  }

  /** A call for one event leaves the layout and the history of every other event alone. */
  lemma CallIsIsolated(s: Db, e: Id, t: Timeline, a: Action, other: Id)
    requires Refines(s, e, t) && other != e
    ensures LayoutOf(Call(s, e, a).rows, other) == LayoutOf(s.rows, other)
    ensures Call(s, e, a).Entries(other) == s.Entries(other)
  {
    match a
    case Edit(requests) =>
      JudgeIsLocal(s.rows, e, requests);
      if Judge(s.rows, e, requests) == Done {
        FoundArePresent(t.present, e, requests);
        WrittenLayout(s.rows, e, other, ToChanges(requests));
      }
    case Back =>
      NewestIsLast(s, e, t);
      if t.past != [] {
        BackLink(s, e, t);
        WrittenLayout(s.rows, e, other, s.Entries(e)[|t.past| - 1].before);
      }
    case Forward =>
      NewestIsLast(s, e, t);
      if t.future != [] {
        ForwardLink(s, e, t);
        WrittenLayout(s.rows, e, other, s.Entries(e)[|t.past|].after);
      }
  }

  // ---------- Runs

  function Run(s: Db, calls: seq<(Id, Action)>): Db {
    if calls == [] then s
    else Call(Run(s, calls[..|calls| - 1]), calls[|calls| - 1].0, calls[|calls| - 1].1)
  }

  /** What the calls for one event do to its stack. */
  ghost function ActAll(t: Timeline, e: Id, calls: seq<(Id, Action)>): Timeline {
    if calls == [] then t
    else
      var before, last := ActAll(t, e, calls[..|calls| - 1]), calls[|calls| - 1];
      if last.0 == e then Act(before, e, last.1) else before
  }

  /** Over any run, for every event, the patch table is a past/present/future stack of whole layouts. */
  lemma {:induction false} RunRefines(s: Db, calls: seq<(Id, Action)>, e: Id)
    requires s.history == map[]
    ensures Refines(Run(s, calls), e, ActAll(Timeline([], LayoutOf(s.rows, e), []), e, calls))
    decreases |calls|
  {
    if calls != [] {
      var init, last := calls[..|calls| - 1], calls[|calls| - 1];
      RunRefines(s, init, e);
      var before := Run(s, init);
      var t := ActAll(Timeline([], LayoutOf(s.rows, e), []), e, init);
      if last.0 == e {
        CallRefines(before, e, t, last.1);
      } else {
        RunRefines(s, init, last.0);
        CallIsIsolated(before, last.0, ActAll(Timeline([], LayoutOf(s.rows, last.0), []), last.0, init), last.1, e);
      }
    }
  }

  // ---------- What one call undoes

  /** An accepted change followed by an undo gives back exactly the rows that were there. */
  lemma UndoRestoresRows(s: Db, e: Id, t: Timeline, requests: seq<Requested>)
    requires Refines(s, e, t) && Judge(s.rows, e, requests) == Done
    ensures UndoStep(ApplyStep(s, e, requests), e).0.rows == s.rows
  {
    hide Layouts, Links, LayoutOf, KeysDistinct, AllFound, IdsDistinct, Written;
    var after, changed := ToChanges(requests), ApplyStep(s, e, requests);
    FoundArePresent(s.rows, e, requests);
    RequestKeysDistinct(requests);
    WritingBack(s.rows, after);
    JudgeIsLocal(s.rows, e, requests);
    EditRefines(s, e, t, requests);
    NewestIsLast(changed, e, Act(t, e, Edit(requests)));
    AppliedPrefix(s.Entries(e), |t.past|);
  }

  lemma SameLayouts(a: Rows, b: Rows)
    requires a.Keys == b.Keys && forall e :: LayoutOf(a, e) == LayoutOf(b, e)
    ensures a == b
  {
    forall key | key in a ensures a[key] == b[key] {
      assert key in LayoutOf(a, a[key].eventId);
      assert key in LayoutOf(b, a[key].eventId);
    }
  }

  /** Redo takes back an undo: rows, positions and flags are as before. */
  lemma RedoAfterUndo(s: Db, e: Id, t: Timeline)
    requires Refines(s, e, t) && t.past != []
    ensures RedoStep(UndoStep(s, e).0, e).0 == s
  {
    hide Refines, Links, LayoutOf;
    var back := UndoStep(s, e).0;
    var again := RedoStep(back, e).0;
    BackRefines(s, e, t);
    ForwardRefines(back, e, Act(t, e, Back));
    RowsComeBack(s, e, t);
    EntriesComeBack(s, e, t);
  }

  lemma RowsComeBack(s: Db, e: Id, t: Timeline)
    requires Refines(s, e, t) && t.past != []
    ensures RedoStep(UndoStep(s, e).0, e).0.rows == s.rows
  {
    hide Links, Written;
    var back := UndoStep(s, e).0;
    BackRefines(s, e, t);
    ForwardRefines(back, e, Act(t, e, Back));
    forall other ensures LayoutOf(RedoStep(back, e).0.rows, other) == LayoutOf(s.rows, other) {
      if other != e {
        CallIsIsolated(s, e, t, Back, other);
        CallIsIsolated(back, e, Act(t, e, Back), Forward, other);
      }
    }
    SameLayouts(RedoStep(back, e).0.rows, s.rows);
  }

  lemma EntriesComeBack(s: Db, e: Id, t: Timeline)
    requires Refines(s, e, t) && t.past != []
    ensures RedoStep(UndoStep(s, e).0, e).0.history == s.history
  {
    hide Links, Written, LayoutOf, NewestApplied, OldestUnapplied;
    var back := UndoStep(s, e).0;
    BackRefines(s, e, t);
    ForwardRefines(back, e, Act(t, e, Back));
    NewestIsLast(s, e, t);
    NewestIsLast(back, e, Act(t, e, Back));
    assert RedoStep(back, e).0.Entries(e) == s.Entries(e);
  }

  function Repeat(s: Db, e: Id, a: Action, k: nat): Db
    decreases k
  {
    if k == 0 then s else Repeat(Call(s, e, a), e, a, k - 1)
  }

  lemma {:induction false} RepeatLast(s: Db, e: Id, a: Action, k: nat)
    ensures Repeat(s, e, a, k + 1) == Call(Repeat(s, e, a, k), e, a)
    decreases k
  {
    hide Call;
    if k > 0 { RepeatLast(Call(s, e, a), e, a, k - 1); }
  }

  /** Undoing k changes and redoing k times is the identity on the whole database. */
  lemma {:induction false} UndosThenRedos(s: Db, e: Id, t: Timeline, k: nat)
    requires Refines(s, e, t) && k <= |t.past|
    ensures Repeat(Repeat(s, e, Back, k), e, Forward, k) == s
    decreases k
  {
    hide Refines;
    if k > 0 {
      var back := Call(s, e, Back);
      CallRefines(s, e, t, Back);
      UndosThenRedos(back, e, Act(t, e, Back), k - 1);
      RepeatLast(Repeat(back, e, Back, k - 1), e, Forward, k - 1);
      RedoAfterUndo(s, e, t);
    }
  }
}
