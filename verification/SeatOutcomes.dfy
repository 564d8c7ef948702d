/**
  What each seat operation must do, said of rows, log and answer alone (seat-write.service.ts). The service and the
  transactions of SeatHolder are proved to do it.
 */
module SeatOutcomes {
  import opened Outcomes
  import opened SeatHolder

  type Answer = Result<Option<Id>, Error>

  // ---------- Words

  predicate Free(seat: Seat) {
    seat.status == Available && seat.holder.guest == None && seat.holder.invitation == None
  }

  predicate FreeIn(seat: Seat, e: Id) {
    seat.eventId == e && Free(seat)
  }

  /** Reserved for the invitation, and not yet anybody's. */
  predicate AwaitsGuest(seat: Seat, e: Id, invitation: Option<Id>) {
    seat.eventId == e && invitation.Some? && seat.holder.invitation == invitation && seat.holder.guest == None
  }

  predicate HeldBy(seat: Seat, e: Id, guest: Id, invitation: Option<Id>) {
    && seat.eventId == e && seat.holder.guest == Some(guest)
    && (invitation.Some? ==> seat.holder.invitation == invitation)
  }

  /** The seat belongs to the guest or to the invitation, in the event. */
  predicate BelongsTo(seat: Seat, e: Id, guest: Option<Id>, invitation: Option<Id>) {
    && seat.eventId == e
    && ((guest.Some? && seat.holder.guest == guest) || (invitation.Some? && seat.holder.invitation == invitation))
  }

  ghost predicate Exists(seats: Seats, matches: Seat -> bool) {
    exists id :: id in seats && matches(seats[id])
  }

  ghost predicate Oldest(seats: Seats, matches: Seat -> bool, id: Id) {
    && id in seats && matches(seats[id])
    && forall other :: other in seats && matches(seats[other]) ==> seats[id].createdAt <= seats[other].createdAt
  }

  ghost predicate BelongsElsewhere(seats: Seats, id: Id, e: Id, guest: Option<Id>, invitation: Option<Id>) {
    exists other :: other in seats && other != id && BelongsTo(seats[other], e, guest, invitation)
  }

  // ---------- assignSeatToGuest

  /** The guest gets this seat and nothing else changes, unless the event already has another seat for the subject. */
  ghost predicate GuestTakes(before: Db, c: GuestClaim, id: Id, r: Answer, after: Db)
    requires id in before.seats
  {
    if BelongsElsewhere(before.seats, id, c.eventId, Some(c.guest), c.invitation)
    then r == Err(UniqueViolation) && after == before
    else
      var seat := before.seats[id];
      var note, holder := if c.note == None then seat.note else c.note, Holder(Some(c.guest), c.invitation);
      && r == Ok(Some(id))
      && after.seats == before.seats[id := Seat(c.eventId, holder, Assigned, note, seat.createdAt)]
      && after.log == before.log + [LogEntry(c.eventId, id, holder, AssignedAction)]
  }

  ghost predicate Refuses(before: Db, error: Error, r: Answer, after: Db) {
    r == Err(error) && after == before
  }

  ghost predicate Returns(before: Db, matches: Seat -> bool, r: Answer, after: Db) {
    after == before && r.Ok? && r.value.Some? && r.value.value in before.seats && matches(before.seats[r.value.value])
  }

  ghost predicate TakesRequested(before: Db, c: GuestClaim, id: Id, r: Answer, after: Db) {
    if id !in before.seats then Refuses(before, SeatUnavailable, r, after)
    else if before.seats[id].eventId != c.eventId then Refuses(before, EventMismatch, r, after)
    else if Free(before.seats[id]) || AwaitsGuest(before.seats[id], c.eventId, c.invitation)
    then GuestTakes(before, c, id, r, after)
    else Refuses(before, SeatUnavailable, r, after)
  }

  ghost predicate GuestOutcome(before: Db, c: GuestClaim, r: Answer, after: Db) {
    var held := (s: Seat) => HeldBy(s, c.eventId, c.guest, c.invitation);
    var awaiting := (s: Seat) => AwaitsGuest(s, c.eventId, c.invitation);
    var free := (s: Seat) => FreeIn(s, c.eventId);
    if Exists(before.seats, held) then Returns(before, held, r, after)
    else if c.seatId.Some? then TakesRequested(before, c, c.seatId.value, r, after)
    else if Exists(before.seats, awaiting)
    then exists id :: Oldest(before.seats, awaiting, id) && GuestTakes(before, c, id, r, after)
    else if Exists(before.seats, free)
    then exists id :: Oldest(before.seats, free, id) && GuestTakes(before, c, id, r, after)
    else Refuses(before, SeatUnavailable, r, after)
  }

  // ---------- reserveSeatForInvitation

  ghost predicate InvitationOutcome(before: Db, e: Id, invitation: Id, r: Answer, after: Db) {
    var held := (s: Seat) => s.eventId == e && s.holder.invitation == Some(invitation);
    var free := (s: Seat) => FreeIn(s, e);
    if Exists(before.seats, held) then Returns(before, held, r, after)
    else if Exists(before.seats, free)
    then exists id :: Oldest(before.seats, free, id) && Reserves(before, e, invitation, id, r, after)
    else Refuses(before, SeatUnavailable, r, after)
  }

  ghost predicate Reserves(before: Db, e: Id, invitation: Id, id: Id, r: Answer, after: Db)
    requires id in before.seats
  {
    var seat := before.seats[id];
    && r == Ok(Some(id))
    && after.seats == before.seats[id := Seat(e, Holder(None, Some(invitation)), Reserved, seat.note, seat.createdAt)]
    && after.log == before.log + [LogEntry(e, id, Holder(None, Some(invitation)), AssignedAction)]
  }

  // ---------- assignSeat

  function Emptied(seat: Seat, note: Option<string>): Seat {
    Seat(seat.eventId, Holder(None, None), Available, note, seat.createdAt)
  }

  function Departure(seats: Seats, id: Id): LogEntry
    requires id in seats
  {
    LogEntry(seats[id].eventId, id, seats[id].holder, UnassignedAction)
  }

  ghost predicate AssignOutcome(before: Db, seatId: Id, guest: Option<Id>, invitation: Option<Id>, note: Option<string>,
                                r: Answer, after: Db)
  {
    if guest.Some? && invitation.Some? then Refuses(before, HolderConflict, r, after)
    else if seatId !in before.seats then Refuses(before, SeatNotFound, r, after)
    else if guest == None && invitation == None then Empties(before, seatId, note, r, after)
    else if Free(before.seats[seatId]) || before.seats[seatId].holder == Holder(guest, invitation)
    then Moves(before, seatId, guest, invitation, note, r, after)
    else Refuses(before, SeatUnavailable, r, after)
  }

  /** A seat without a holder is left as it is; any other loses its holder, and the log says which. */
  ghost predicate Empties(before: Db, id: Id, note: Option<string>, r: Answer, after: Db)
    requires id in before.seats
  {
    && r == Ok(Some(id))
    && if before.seats[id].holder == Holder(None, None) then after == before
       else
         && after.seats == before.seats[id := Emptied(before.seats[id], note)]
         && after.log == before.log + [Departure(before.seats, id)]
  }

  /** The subject leaves its other seats in the event, in some order, and takes this one. */
  ghost predicate Moves(before: Db, id: Id, guest: Option<Id>, invitation: Option<Id>, note: Option<string>,
                        r: Answer, after: Db)
    requires id in before.seats
  {
    var seat := before.seats[id];
    var earlier := after.log[..if after.log == [] then 0 else |after.log| - 1];
    && r == Ok(Some(id)) && after.seats.Keys == before.seats.Keys
    && (forall other :: other in before.seats && other != id ==>
          after.seats[other] == if BelongsTo(before.seats[other], seat.eventId, guest, invitation)
                                then Emptied(before.seats[other], None) else before.seats[other])
    && after.seats[id] == Seat(seat.eventId, Holder(guest, invitation), Assigned, note, seat.createdAt)
    && after.log == earlier + [LogEntry(seat.eventId, id, Holder(guest, invitation), AssignedAction)]
    && exists left :: LeavesInTurn(before, id, guest, invitation, left, earlier)
  }

  ghost predicate LeavesInTurn(before: Db, id: Id, guest: Option<Id>, invitation: Option<Id>,
                               left: seq<Id>, log: seq<LogEntry>)
    requires id in before.seats
  {
    && (forall other :: other in left <==>
          other in before.seats && other != id
          && BelongsTo(before.seats[other], before.seats[id].eventId, guest, invitation))
    && (forall a, b :: 0 <= a < b < |left| ==> left[a] != left[b])
    && Departed(before, left, log)
  }

  /** One entry for each seat that is left. */
  ghost predicate Departed(before: Db, left: seq<Id>, log: seq<LogEntry>) {
    && |log| == |before.log| + |left| && before.log <= log
    && forall k :: 0 <= k < |left| ==>
         left[k] in before.seats && log[|before.log| + k] == Departure(before.seats, left[k])
  }

  // ---------- unassignSeat, unassignSeatsByGuestId

  ghost predicate UnassignOutcome(before: Db, id: Id, after: Db) {
    if id !in before.seats || before.seats[id].holder == Holder(None, None) then after == before
    else
      && after.seats == before.seats[id := Emptied(before.seats[id], None)]
      && after.log == before.log + [Departure(before.seats, id)]
  }

  ghost predicate GuestLeaves(before: Db, guest: Id, after: Db) {
    && after.seats.Keys == before.seats.Keys
    && (forall id :: id in before.seats ==>
          after.seats[id] == if before.seats[id].holder.guest == Some(guest) then Emptied(before.seats[id], None)
                             else before.seats[id])
    && exists left :: LeftBy(before, guest, left, after.log)
  }

  ghost predicate LeftBy(before: Db, guest: Id, left: seq<Id>, log: seq<LogEntry>) {
    && (forall id :: id in left <==> id in before.seats && before.seats[id].holder.guest == Some(guest))
    && (forall a, b :: 0 <= a < b < |left| ==> left[a] != left[b])
    && Departed(before, left, log)
  }

  // ---------- The transactions do it

  /** The answer of a transaction to its caller. */
  function Answered(r: Result<Done, Error>): Answer {
    match r
    case Ok(done) => Ok(done.seat)
    case Err(error) => Err(error)
  }

  function After(db: Db, r: Result<Done, Error>): Db {
    if r.Ok? then r.value.db else db
  }

  lemma ClaimTakes(db: Db, c: GuestClaim, id: Id)
    requires id in db.seats && db.seats[id].eventId == c.eventId
    requires Free(db.seats[id]) || AwaitsGuest(db.seats[id], c.eventId, c.invitation)
    ensures var mode := if db.seats[id].ReservedFor(c.invitation) then FromReserved else FromFree;
      var r := ClaimForGuest(db, c.eventId, id, mode, c.guest, c.invitation, c.note);
      GuestTakes(db, c, id, Answered(r), After(db, r))
  {
    var seat := db.seats[id];
    var holder := Holder(Some(c.guest), c.invitation);
    var updated := seat.(holder := holder, status := Assigned, note := if c.note.Some? then c.note else seat.note);
    forall other | other in db.seats
      ensures Clashes(db.seats[other], updated)
        <==> BelongsTo(db.seats[other], c.eventId, Some(c.guest), c.invitation)
    {
    }
  }

  lemma ClaimRefuses(db: Db, c: GuestClaim, id: Id)
    requires id in db.seats && db.seats[id].eventId == c.eventId
    requires !Free(db.seats[id]) && !AwaitsGuest(db.seats[id], c.eventId, c.invitation)
    ensures var mode := if db.seats[id].ReservedFor(c.invitation) then FromReserved else FromFree;
      ClaimForGuest(db, c.eventId, id, mode, c.guest, c.invitation, c.note) == Err(SeatUnavailable)
  {
  }

  /** Whatever its queries answered, the guest claim does what it must. */
  lemma GuestTxDoes(db: Db, c: GuestClaim, a: Answers)
    requires AnswersGuest(db.seats, c, a)
    ensures GuestOutcome(db, c, Answered(GuestTx(db, c, a)), After(db, GuestTx(db, c, a)))
  {
    hide ClaimForGuest, GuestTakes;
    var held := (s: Seat) => HeldBy(s, c.eventId, c.guest, c.invitation);
    var awaiting := (s: Seat) => AwaitsGuest(s, c.eventId, c.invitation);
    var free := (s: Seat) => FreeIn(s, c.eventId);
    assert Exists(db.seats, held) <==> a.existing.Some?;
    assert Exists(db.seats, awaiting) <==> a.reserved.Some?;
    assert Exists(db.seats, free) <==> a.free.Some?;
    if a.existing.None? {
      if c.seatId.Some? {
        var id := c.seatId.value;
        if id in db.seats && db.seats[id].eventId == c.eventId { Chosen(db, c, id); }
      } else if a.reserved.Some? {
        assert Oldest(db.seats, awaiting, a.reserved.value);
        Chosen(db, c, a.reserved.value);
      } else if a.free.Some? {
        assert Oldest(db.seats, free, a.free.value);
        Chosen(db, c, a.free.value);
      }
    }
  }

  lemma Chosen(db: Db, c: GuestClaim, id: Id)
    requires id in db.seats && db.seats[id].eventId == c.eventId
    ensures var mode := if db.seats[id].ReservedFor(c.invitation) then FromReserved else FromFree;
      var r := ClaimForGuest(db, c.eventId, id, mode, c.guest, c.invitation, c.note);
      if Free(db.seats[id]) || AwaitsGuest(db.seats[id], c.eventId, c.invitation)
      then GuestTakes(db, c, id, Answered(r), After(db, r)) else r == Err(SeatUnavailable)
  {
    hide ClaimForGuest, GuestTakes;
    if Free(db.seats[id]) || AwaitsGuest(db.seats[id], c.eventId, c.invitation) {
      ClaimTakes(db, c, id);
    } else {
      ClaimRefuses(db, c, id);
    }
  }

  lemma ReserveTxDoes(db: Db, e: Id, invitation: Id, a: Answers)
    requires AnswersInvitation(db.seats, e, invitation, a)
    ensures var r := ReserveTx(db, e, invitation, a); InvitationOutcome(db, e, invitation, Answered(r), After(db, r))
  {
    var held := (s: Seat) => s.eventId == e && s.holder.invitation == Some(invitation);
    var free := (s: Seat) => FreeIn(s, e);
    assert Exists(db.seats, held) <==> a.existing.Some?;
    assert Exists(db.seats, free) <==> a.free.Some?;
    if a.existing.None? && a.free.Some? {
      var id := a.free.value;
      assert Oldest(db.seats, free, id);
      assert forall other :: other in db.seats ==> !held(db.seats[other]);
      assert Write(db.seats, id, db.seats[id].(holder := Holder(None, Some(invitation)), status := Reserved)).Ok?;
    }
  }

  /** What releasing a list of seats does to rows and log. */
  lemma {:induction false} ReleasedInTurn(db: Db, order: seq<Id>)
    requires forall k :: 0 <= k < |order| ==> order[k] in db.seats
    requires forall a, b :: 0 <= a < b < |order| ==> order[a] != order[b]
    ensures var r := ReleaseAll(db, order);
      && (forall id :: id in db.seats ==>
            r.seats[id] == if id in order then Emptied(db.seats[id], None) else db.seats[id])
      && Departed(db, order, r.log)
  {
    if order != [] {
      hide Departed;
      var init, last := order[..|order| - 1], order[|order| - 1];
      ReleasedInTurn(db, init);
      assert last !in init && order == init + [last];
      OneMoreDeparted(db, init, last);
    }
  }

  lemma OneMoreDeparted(db: Db, init: seq<Id>, last: Id)
    requires (forall k :: 0 <= k < |init| ==> init[k] in db.seats) && last in db.seats
    requires var r := ReleaseAll(db, init); r.seats[last] == db.seats[last] && Departed(db, init, r.log)
    ensures Departed(db, init + [last], ReleaseOne(ReleaseAll(db, init), last).log)
  {
    hide ReleaseAll;
  }

  lemma AssignTxDoes(db: Db, seatId: Id, holder: Holder, note: Option<string>, order: seq<Id>)
    requires forall k :: 0 <= k < |order| ==> order[k] in db.seats
    requires seatId in db.seats && holder != Holder(None, None) && !(holder.guest.Some? && holder.invitation.Some?) ==>
      ListsConflicts(db.seats, seatId, holder, order)
    ensures var r := AssignTx(db, seatId, holder, note, order);
      AssignOutcome(db, seatId, holder.guest, holder.invitation, note, Answered(r), After(db, r))
  {
    hide ReleaseAll, Departed;
    if seatId in db.seats && !(holder.guest.Some? && holder.invitation.Some?) {
      if holder == Holder(None, None) {
        assert Write(db.seats, seatId, db.seats[seatId].(holder := NOBODY, note := note, status := Available)).Ok?;
      } else {
        ReleasedInTurn(db, order);
        if Free(db.seats[seatId]) || db.seats[seatId].holder == holder { MovesThere(db, seatId, holder, note, order); }
      }
    }
  }

  lemma MovesThere(db: Db, seatId: Id, holder: Holder, note: Option<string>, order: seq<Id>)
    requires seatId in db.seats && ListsConflicts(db.seats, seatId, holder, order)
    requires holder != Holder(None, None) && !(holder.guest.Some? && holder.invitation.Some?)
    requires Free(db.seats[seatId]) || db.seats[seatId].holder == holder
    ensures var r := AssignTx(db, seatId, holder, note, order);
      Moves(db, seatId, holder.guest, holder.invitation, note, Answered(r), After(db, r))
  {
    hide ReleaseAll, Departed;
    ReleasedInTurn(db, order);
    var freed, seat := ReleaseAll(db, order), db.seats[seatId];
    forall other | other in db.seats
      ensures other in order <==>
        other != seatId && BelongsTo(db.seats[other], seat.eventId, holder.guest, holder.invitation)
    {
      assert ConflictsWith(db.seats, seatId, holder, other) <==>
        other != seatId && BelongsTo(db.seats[other], seat.eventId, holder.guest, holder.invitation);
    }
    assert freed.seats[seatId] == seat;
    assert Write(freed.seats, seatId, seat.(holder := holder, note := note, status := Assigned)).Ok?;
    var log := freed.log + [LogEntry(seat.eventId, seatId, holder, AssignedAction)];
    assert log[..|log| - 1] == freed.log;
    assert LeavesInTurn(db, seatId, holder.guest, holder.invitation, order, freed.log);
  }

  lemma UnassignTxDoes(db: Db, id: Id)
    ensures UnassignOutcome(db, id, UnassignTx(db, id))
  {
  }

  lemma {:induction false} UnassignAllReleases(db: Db, order: seq<Id>)
    requires forall k :: 0 <= k < |order| ==> order[k] in db.seats && db.seats[order[k]].holder != Holder(None, None)
    requires forall a, b :: 0 <= a < b < |order| ==> order[a] != order[b]
    ensures UnassignAll(db, order) == ReleaseAll(db, order)
  {
    if order != [] {
      var init, last := order[..|order| - 1], order[|order| - 1];
      UnassignAllReleases(db, init);
      ReleasedInTurn(db, init);
      assert last !in init;
    }
  }

  lemma UnassignAllDoes(db: Db, guest: Id, order: seq<Id>)
    requires ListsSeatsOf(db.seats, guest, order)
    ensures GuestLeaves(db, guest, UnassignAll(db, order))
  {
    hide ReleaseAll, UnassignAll, Departed;
    UnassignAllReleases(db, order);
    ReleasedInTurn(db, order);
    assert LeftBy(db, guest, order, ReleaseAll(db, order).log);
  }
}
