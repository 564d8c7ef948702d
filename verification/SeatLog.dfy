/**
  Over any run of whole operations: the log replays to the current holders, and the rows keep their
  unique indexes and the meaning of their statuses.
 */
module SeatLog {
  import opened Outcomes
  import opened SeatHolder

  // ---------- The log

  /** Who holds a seat according to its last entry. */
  function Replay(log: seq<LogEntry>, id: Id): Holder {
    if log == [] then NOBODY
    else
      var last := log[|log| - 1];
      if last.seatId != id then Replay(log[..|log| - 1], id)
      else if last.action == AssignedAction then last.holder
      else NOBODY
  }

  /** Every column that is set stays as it is. */
  predicate Extends(older: Holder, newer: Holder) {
    && (older.guest.Some? ==> newer.guest == older.guest)
    && (older.invitation.Some? ==> newer.invitation == older.invitation)
  }

  /**
    An ASSIGNED entry only extends what was assigned since the last UNASSIGNED entry, and an UNASSIGNED
    entry names the holder that it removes.
   */
  ghost predicate Follows(log: seq<LogEntry>, entry: LogEntry) {
    var holder := Replay(log, entry.seatId);
    && entry.holder != NOBODY
    && if entry.action == AssignedAction then Extends(holder, entry.holder) else entry.holder == holder
  }

  ghost predicate Consistent(log: seq<LogEntry>) {
    forall k :: 0 <= k < |log| ==> Follows(log[..k], log[k])
  }

  // ---------- The rows

  predicate StatusFits(seat: Seat) {
    && (seat.status == Available ==> seat.holder == NOBODY)
    && (seat.status == Reserved ==> seat.holder.guest == None && seat.holder.invitation.Some?)
  }

  ghost predicate Good(db: Db) {
    && Unique(db.seats)
    && (forall id :: id in db.seats ==> StatusFits(db.seats[id]) && Replay(db.log, id) == db.seats[id].holder)
    && Consistent(db.log)
  }

  // ---------- Operations

  datatype Op =
    | Create(id: Id, eventId: Id, createdAt: int)
    | Delete(id: Id)
    | Assign(seatId: Id, holder: Holder, note: Option<string>, order: seq<Id>)
    | AssignToGuest(claim: GuestClaim, answers: Answers)
    | Reserve(eventId: Id, invitation: Id, answers: Answers)
    | Unassign(seatId: Id)
    | UnassignByGuest(guest: Id, order: seq<Id>)

  /** The parameters that stand for the database's choices are possible ones; ids of new seats are new. */
  ghost predicate Possible(db: Db, op: Op) {
    match op
    case Create(id, _, _) => id !in db.seats && forall k :: 0 <= k < |db.log| ==> db.log[k].seatId != id
    case Assign(seatId, holder, _, order) =>
      if seatId in db.seats then ListsConflicts(db.seats, seatId, holder, order) else order == []
    case AssignToGuest(claim, answers) => AnswersGuest(db.seats, claim, answers)
    case Reserve(e, invitation, answers) => AnswersInvitation(db.seats, e, invitation, answers)
    case UnassignByGuest(guest, order) => ListsSeatsOf(db.seats, guest, order)
    case _ => true
  }

  function Committed(db: Db, r: Result<Done, Error>): Db {
    if r.Ok? then r.value.db else db
  }

  ghost function Perform(db: Db, op: Op): Db
    requires Possible(db, op)
  {
    match op
    case Create(id, e, createdAt) => Db(db.seats[id := Seat(e, NOBODY, Available, None, createdAt)], db.log)
    case Delete(id) => Db(db.seats - {id}, db.log)
    case Assign(seatId, holder, note, order) => Committed(db, AssignTx(db, seatId, holder, note, order))
    case AssignToGuest(claim, answers) => Committed(db, GuestTx(db, claim, answers))
    case Reserve(e, invitation, answers) => Committed(db, ReserveTx(db, e, invitation, answers))
    case Unassign(seatId) => UnassignTx(db, seatId)
    case UnassignByGuest(_, order) => UnassignAll(db, order)
  }

  // ---------- One row and one entry at a time

  lemma LogGrows(log: seq<LogEntry>, entry: LogEntry)
    requires Consistent(log) && Follows(log, entry)
    ensures Consistent(log + [entry])
    ensures Replay(log + [entry], entry.seatId) == if entry.action == AssignedAction then entry.holder else NOBODY
    ensures forall id :: id != entry.seatId ==> Replay(log + [entry], id) == Replay(log, id)
  {
    var longer := log + [entry];
    assert longer[..|log|] == log;
    assert forall k :: 0 <= k <= |log| ==> longer[..k] == log[..k];
    assert log[..|log|] == log;
  }

  /** A row changes and the log says so. */
  lemma Recorded(db: Db, id: Id, seat: Seat, entry: LogEntry)
    requires Good(db) && id in db.seats && Write(db.seats, id, seat).Ok? && StatusFits(seat)
    requires seat.eventId == db.seats[id].eventId && entry.seatId == id && entry.holder != NOBODY
    requires if entry.action == AssignedAction
             then entry.holder == seat.holder && Extends(db.seats[id].holder, seat.holder)
             else entry.holder == db.seats[id].holder && seat.holder == NOBODY
    ensures Good(Db(db.seats[id := seat], db.log + [entry]))
  {
    LogGrows(db.log, entry);
    WriteKeepsUnique(db.seats, id, seat);
  }

  lemma WriteKeepsUnique(seats: Seats, id: Id, seat: Seat)
    requires Unique(seats) && Write(seats, id, seat).Ok?
    ensures Write(seats, id, seat).value == seats[id := seat] && Unique(seats[id := seat])
  {
  }

  lemma ReleaseKeepsGood(db: Db, id: Id)
    requires Good(db) && id in db.seats && db.seats[id].holder != NOBODY
    ensures Good(ReleaseOne(db, id))
  {
    var seat := db.seats[id];
    Recorded(db, id, seat.Released(), LogEntry(seat.eventId, id, seat.holder, UnassignedAction));
  }

  /** Releasing touches the listed seats only. */
  lemma {:induction false} ReleasedRows(db: Db, order: seq<Id>)
    requires forall k :: 0 <= k < |order| ==> order[k] in db.seats
    ensures forall id :: id in db.seats ==>
      ReleaseAll(db, order).seats[id] == if id in order then db.seats[id].Released() else db.seats[id]
  {
    if order != [] { ReleasedRows(db, order[..|order| - 1]); }
  }

  lemma {:induction false} ReleaseAllKeepsGood(db: Db, order: seq<Id>)
    requires Good(db)
    requires forall k :: 0 <= k < |order| ==> order[k] in db.seats && db.seats[order[k]].holder != NOBODY
    requires forall a, b :: 0 <= a < b < |order| ==> order[a] != order[b]
    ensures Good(ReleaseAll(db, order))
  {
    if order != [] {
      var init, last := order[..|order| - 1], order[|order| - 1];
      ReleaseAllKeepsGood(db, init);
      ReleasedRows(db, init);
      ReleaseKeepsGood(ReleaseAll(db, init), last);
    }
  }

  // ---------- assignSeat

  /** Once the conflicting seats are free, nobody else in the event has the subject. */
  lemma ConflictsGone(db: Db, seatId: Id, holder: Holder, order: seq<Id>)
    requires seatId in db.seats && ListsConflicts(db.seats, seatId, holder, order)
    ensures var freed := ReleaseAll(db, order);
      && freed.seats[seatId] == db.seats[seatId]
      && forall other :: other in freed.seats && other != seatId ==>
           !Clashes(freed.seats[other], db.seats[seatId].(holder := holder))
  {
    ReleasedRows(db, order);
    forall other | other in db.seats && other != seatId && other !in order
      ensures !Clashes(db.seats[other], db.seats[seatId].(holder := holder))
    {
      assert !ConflictsWith(db.seats, seatId, holder, other);
    }
    assert forall k :: 0 <= k < |order| ==> ConflictsWith(db.seats, seatId, holder, order[k]);
  }

  /** The unique indexes never refuse assignSeat; it fails for the reasons that it checks, and for no other. */
  lemma AssignSucceedsWhen(db: Db, seatId: Id, holder: Holder, note: Option<string>, order: seq<Id>)
    requires Good(db) && Possible(db, Assign(seatId, holder, note, order))
    ensures AssignTx(db, seatId, holder, note, order).Ok? <==>
      && !(holder.guest.Some? && holder.invitation.Some?) && seatId in db.seats
      && (holder == NOBODY || db.seats[seatId].IsFree() || db.seats[seatId].holder == holder)
    ensures AssignTx(db, seatId, holder, note, order) != Err(UniqueViolation)
  {
    if seatId in db.seats { ConflictsGone(db, seatId, holder, order); }
  }

  /** The subject holds the target seat and no other seat of the event; nobody else's seat moves. */
  lemma AssignMovesOneSubject(db: Db, seatId: Id, holder: Holder, note: Option<string>, order: seq<Id>)
    requires Good(db) && Possible(db, Assign(seatId, holder, note, order)) && holder != NOBODY
    requires AssignTx(db, seatId, holder, note, order).Ok?
    ensures var after := AssignTx(db, seatId, holder, note, order).value.db;
      && after.seats.Keys == db.seats.Keys
      && after.seats[seatId] == db.seats[seatId].(holder := holder, note := note, status := Assigned)
      && forall other :: other in db.seats && other != seatId ==>
           after.seats[other] == if ConflictsWith(db.seats, seatId, holder, other) then db.seats[other].Released()
                                 else db.seats[other]
  {
    ConflictsGone(db, seatId, holder, order);
    ReleasedRows(db, order);
    AssignSucceedsWhen(db, seatId, holder, note, order);
  }

  lemma AssignKeepsGood(db: Db, seatId: Id, holder: Holder, note: Option<string>, order: seq<Id>)
    requires Good(db) && Possible(db, Assign(seatId, holder, note, order))
    ensures Good(Committed(db, AssignTx(db, seatId, holder, note, order)))
  {
    AssignSucceedsWhen(db, seatId, holder, note, order);
    if AssignTx(db, seatId, holder, note, order).Ok? {
      var seat := db.seats[seatId];
      if holder != NOBODY {
        forall k | 0 <= k < |order| ensures order[k] in db.seats && db.seats[order[k]].holder != NOBODY {
          assert ConflictsWith(db.seats, seatId, holder, order[k]);
        }
        ReleaseAllKeepsGood(db, order);
        ConflictsGone(db, seatId, holder, order);
        Recorded(ReleaseAll(db, order), seatId, seat.(holder := holder, note := note, status := Assigned),
                 LogEntry(seat.eventId, seatId, holder, AssignedAction));
      } else if seat.holder != NOBODY {
        Recorded(db, seatId, seat.(holder := NOBODY, note := note, status := Available),
                 LogEntry(seat.eventId, seatId, seat.holder, UnassignedAction));
      }
    }
  }

  // ---------- The claims

  lemma GuestClaimKeepsGood(db: Db, e: Id, seatId: Id, mode: Mode, guest: Id, invitation: Option<Id>,
                            note: Option<string>)
    requires Good(db)
    ensures Good(Committed(db, ClaimForGuest(db, e, seatId, mode, guest, invitation, note)))
  {
    var r := ClaimForGuest(db, e, seatId, mode, guest, invitation, note);
    if r.Ok? {
      var seat := db.seats[seatId];
      var holder := Holder(Some(guest), if invitation.Some? then invitation else seat.holder.invitation);
      var updated := seat.(holder := holder, status := Assigned, note := if note.Some? then note else seat.note);
      Recorded(db, seatId, updated, LogEntry(e, seatId, Holder(Some(guest), invitation), AssignedAction));
    }
  }

  lemma InvitationClaimKeepsGood(db: Db, e: Id, seatId: Id, invitation: Id)
    requires Good(db)
    ensures Good(Committed(db, ClaimForInvitation(db, e, seatId, invitation)))
  {
    var r := ClaimForInvitation(db, e, seatId, invitation);
    if r.Ok? {
      var holder := Holder(None, Some(invitation));
      Recorded(db, seatId, db.seats[seatId].(holder := holder, status := Reserved),
               LogEntry(e, seatId, holder, AssignedAction));
    }
  }

  /** A claim that succeeds gives the caller a seat that holds what was claimed. */
  lemma GuestClaimHolds(db: Db, c: GuestClaim, a: Answers)
    requires AnswersGuest(db.seats, c, a) && GuestTx(db, c, a).Ok?
    ensures var done := GuestTx(db, c, a).value;
      done.seat.Some? && done.seat.value in done.db.seats && c.Holds(done.db.seats[done.seat.value])
  {
  }

  /**
    Redelivery: as long as some seat holds what is claimed, the same claim returns that very seat, changes no
    row and adds no entry, whatever its queries chose.
   */
  lemma GuestClaimIsIdempotent(db: Db, c: GuestClaim, a: Answers, id: Id)
    requires Good(db) && AnswersGuest(db.seats, c, a) && id in db.seats && c.Holds(db.seats[id])
    ensures GuestTx(db, c, a) == Ok(Done(db, Some(id)))
  {
  }

  lemma ReservationHolds(db: Db, e: Id, invitation: Id, a: Answers)
    requires AnswersInvitation(db.seats, e, invitation, a) && ReserveTx(db, e, invitation, a).Ok?
    ensures var done := ReserveTx(db, e, invitation, a).value;
      && done.seat.Some? && done.seat.value in done.db.seats
      && done.db.seats[done.seat.value].eventId == e
      && done.db.seats[done.seat.value].holder.invitation == Some(invitation)
  {
  }

  lemma ReservationIsIdempotent(db: Db, e: Id, invitation: Id, a: Answers, id: Id)
    requires Good(db) && AnswersInvitation(db.seats, e, invitation, a)
    requires id in db.seats && db.seats[id].eventId == e && db.seats[id].holder.invitation == Some(invitation)
    ensures ReserveTx(db, e, invitation, a) == Ok(Done(db, Some(id)))
  {
  }

  // ---------- unassignSeat

  lemma {:induction false} UnassignAllKeepsGood(db: Db, order: seq<Id>)
    requires Good(db)
    ensures Good(UnassignAll(db, order)) && UnassignAll(db, order).seats.Keys == db.seats.Keys
  {
    if order != [] {
      var before, last := UnassignAll(db, order[..|order| - 1]), order[|order| - 1];
      UnassignAllKeepsGood(db, order[..|order| - 1]);
      if last in before.seats && before.seats[last].holder != NOBODY { ReleaseKeepsGood(before, last); }
    }
  }

  /** After unassignSeatsByGuestId the guest holds nothing, and nobody else's seat has moved. */
  lemma {:induction false} UnassignedRows(db: Db, order: seq<Id>)
    requires forall k :: 0 <= k < |order| ==> order[k] in db.seats && db.seats[order[k]].holder != NOBODY
    requires forall a, b :: 0 <= a < b < |order| ==> order[a] != order[b]
    ensures UnassignAll(db, order) == ReleaseAll(db, order)
  {
    if order != [] {
      UnassignedRows(db, order[..|order| - 1]);
      ReleasedRows(db, order[..|order| - 1]);
    }
  }

  lemma GuestIsGone(db: Db, guest: Id, order: seq<Id>)
    requires ListsSeatsOf(db.seats, guest, order)
    ensures forall id :: id in db.seats ==>
      UnassignAll(db, order).seats[id]
        == if db.seats[id].holder.guest == Some(guest) then db.seats[id].Released() else db.seats[id]
  {
    UnassignedRows(db, order);
    ReleasedRows(db, order);
  }

  // ---------- Runs

  lemma PerformKeepsGood(db: Db, op: Op)
    requires Good(db) && Possible(db, op)
    ensures Good(Perform(db, op))
  {
    match op
    case Create(id, _, _) => NoEntries(db.log, id);
    case Delete(id) =>
    case Assign(seatId, holder, note, order) => AssignKeepsGood(db, seatId, holder, note, order);
    case AssignToGuest(c, a) =>
      forall seatId, mode { GuestClaimKeepsGood(db, c.eventId, seatId, mode, c.guest, c.invitation, c.note); }
    case Reserve(e, invitation, a) =>
      forall seatId { InvitationClaimKeepsGood(db, e, seatId, invitation); }
    case Unassign(seatId) =>
      if seatId in db.seats && db.seats[seatId].holder != NOBODY { ReleaseKeepsGood(db, seatId); }
    case UnassignByGuest(_, order) => UnassignAllKeepsGood(db, order);
  }

  lemma {:induction false} NoEntries(log: seq<LogEntry>, id: Id)
    requires forall k :: 0 <= k < |log| ==> log[k].seatId != id
    ensures Replay(log, id) == NOBODY
  {
    if log != [] { NoEntries(log[..|log| - 1], id); }
  }

  /** The databases of a run, each made from the one before by a possible operation. */
  ghost predicate IsRun(states: seq<Db>, ops: seq<Op>) {
    && |states| == |ops| + 1
    && forall k :: 0 <= k < |ops| ==> Possible(states[k], ops[k]) && states[k + 1] == Perform(states[k], ops[k])
  }

  /** The log replays to every live seat's holder, and the rows stay well-formed, in every state of every run. */
  lemma {:induction false} RunKeepsGood(states: seq<Db>, ops: seq<Op>, k: nat)
    requires IsRun(states, ops) && Good(states[0]) && k < |states|
    ensures Good(states[k])
  {
    if k > 0 {
      RunKeepsGood(states, ops, k - 1);
      PerformKeepsGood(states[k - 1], ops[k - 1]);
    }
  }

  lemma EmptyIsGood()
    ensures Good(Db(map[], []))
  {
  }

  /** Between two ASSIGNED entries of a seat with no UNASSIGNED entry between, set columns stay as they are. */
  lemma {:induction false} AssignedChain(log: seq<LogEntry>, i: nat, j: nat)
    requires Consistent(log) && i < j < |log| && log[i].seatId == log[j].seatId
    requires log[i].action == AssignedAction && log[j].action == AssignedAction
    requires forall k :: i < k < j && log[k].seatId == log[i].seatId ==> log[k].action == AssignedAction
    ensures Extends(log[i].holder, log[j].holder)
  {
    ReplayExtends(log, i, j);
    assert Follows(log[..j], log[j]);
  }

  lemma {:induction false} ReplayExtends(log: seq<LogEntry>, i: nat, j: nat)
    requires Consistent(log) && i < j <= |log| && log[i].action == AssignedAction
    requires forall k :: i < k < j && log[k].seatId == log[i].seatId ==> log[k].action == AssignedAction
    ensures Extends(log[i].holder, Replay(log[..j], log[i].seatId))
    decreases j
  {
    assert log[..j][..j - 1] == log[..j - 1];
    assert Follows(log[..j - 1], log[j - 1]);
    if j > i + 1 {
      ReplayExtends(log, i, j - 1);
    }
  }
}
