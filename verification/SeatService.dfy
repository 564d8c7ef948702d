/** The seat service itself (seat-write.service.ts): rows and log are updated in place, and an error rolls back. */
module SeatServices {
  import opened Outcomes
  import opened SeatHolder
  import opened SeatOutcomes

  predicate IsOldest(seats: Seats, matches: Seat -> bool, id: Id) {
    id in seats && matches(seats[id])
    && forall other :: other in seats && matches(seats[other]) ==> seats[id].createdAt <= seats[other].createdAt
  }

  lemma OldestExists(seats: Seats, matches: Seat -> bool, id: Id)
    requires id in seats && matches(seats[id])
    ensures exists oldest :: IsOldest(seats, matches, oldest)
    decreases |seats|
  {
    if other :| other in seats && matches(seats[other]) && seats[other].createdAt < seats[id].createdAt {
      var rest := seats - {id};
      assert |rest| < |seats| by { assert seats.Keys == rest.Keys + {id}; }
      OldestExists(rest, matches, other);
      var oldest :| IsOldest(rest, matches, oldest);
      assert seats[oldest].createdAt <= seats[other].createdAt by { assert rest[other] == seats[other]; }
      forall x | x in seats && matches(seats[x]) ensures seats[oldest].createdAt <= seats[x].createdAt {
        if x != id { assert x in rest && rest[x] == seats[x]; }
      }
      assert IsOldest(seats, matches, oldest);
    } else {
      assert IsOldest(seats, matches, id);
    }
  }

  class SeatService {
    var seats: Seats
    var log: seq<LogEntry>

    ghost function Now(): Db
      reads this
    {
      Db(seats, log)
    }

    method FindFirst(matches: Seat -> bool) returns (answer: Option<Id>)
      ensures AnswersOldest(seats, matches, answer)
    {
      if exists id :: id in seats && matches(seats[id]) {
        ghost var some :| some in seats && matches(seats[some]);
        OldestExists(seats, matches, some);
        var oldest :| oldest in seats && IsOldest(seats, matches, oldest);
        return Some(oldest);
      }
      return None;
    }

    /** Free the other seats that the subject holds in the event. */
    method ReleaseConflicts(seatId: Id, holder: Holder) returns (ghost order: seq<Id>)
      requires seatId in seats
      modifies this
      ensures ListsConflicts(old(seats), seatId, holder, order)
      ensures Now() == ReleaseAll(old(Now()), order)
    {
      hide Seat.Released, Clashes;
      var rows := seats;
      var conflicting := set other | other in rows && ConflictsWith(rows, seatId, holder, other);
      order := [];
      while conflicting != {}
        invariant forall k :: 0 <= k < |order| ==>
          ConflictsWith(rows, seatId, holder, order[k]) && order[k] !in conflicting
        invariant forall other :: ConflictsWith(rows, seatId, holder, other) ==> other in order || other in conflicting
        invariant forall other :: other in conflicting ==> other in rows && ConflictsWith(rows, seatId, holder, other)
        invariant forall a, b :: 0 <= a < b < |order| ==> order[a] != order[b]
        invariant Now() == ReleaseAll(old(Now()), order)
        decreases conflicting
      {
        var other :| other in conflicting;
        var seat := seats[other];
        log := log + [LogEntry(seat.eventId, other, seat.holder, UnassignedAction)];
        seats := seats[other := seat.Released()];
        assert (order + [other])[..|order|] == order;
        order := order + [other];
        conflicting := conflicting - {other};
      }
    }

    /** One row update inside a transaction; false when it breaks a unique index. */
    method UpdateRow(id: Id, seat: Seat, entry: LogEntry) returns (ok: bool)
      modifies this
      ensures ok == Write(old(seats), id, seat).Ok?
      ensures ok ==> seats == Write(old(seats), id, seat).value && log == old(log) + [entry]
      ensures !ok ==> Now() == old(Now())
    {
      ok := !exists other :: other in seats && other != id && Clashes(seats[other], seat);
      if ok {
        seats := seats[id := seat];
        log := log + [entry];
      }
    }

    method AssignSeat(seatId: Id, holder: Holder, note: Option<string>)
      returns (r: Result<Option<Id>, Error>, ghost order: seq<Id>)
      modifies this
      ensures seatId in old(seats) && holder != NOBODY ==>
        r == Err(HolderConflict) || ListsConflicts(old(seats), seatId, holder, order)
      ensures forall k :: 0 <= k < |order| ==> order[k] in old(seats)
      ensures match AssignTx(old(Now()), seatId, holder, note, order)
        case Ok(done) => r == Ok(done.seat) && Now() == done.db
        case Err(error) => r == Err(error) && Now() == old(Now())
      ensures AssignOutcome(old(Now()), seatId, holder.guest, holder.invitation, note, r, Now())
    {
      hide AssignOutcome;
      ghost var start := Now();
      order := [];
      if holder == NOBODY || (holder.guest.Some? && holder.invitation.Some?) || seatId !in seats {
        AssignTxDoes(start, seatId, holder, note, []);
      }
      if holder.guest.Some? && holder.invitation.Some? {
        return Err(HolderConflict), [];
      }
      if seatId !in seats {
        return Err(SeatNotFound), [];
      }
      var seat := seats[seatId];
      if holder == NOBODY {
        if seat.holder == NOBODY {
          return Ok(Some(seatId)), [];
        }
        var ok := UpdateRow(seatId, seat.(holder := NOBODY, note := note, status := Available),
                            LogEntry(seat.eventId, seatId, seat.holder, UnassignedAction));
        return if ok then Ok(Some(seatId)) else Err(UniqueViolation), [];
      }
      var savedSeats, savedLog := seats, log;
      order := ReleaseConflicts(seatId, holder);
      AssignTxDoes(start, seatId, holder, note, order);
      var target := seats[seatId];
      if !target.IsFree() && target.holder != holder {
        seats, log := savedSeats, savedLog;
        return Err(SeatUnavailable), order;
      }
      var ok := UpdateRow(seatId, target.(holder := holder, note := note, status := Assigned),
                          LogEntry(seat.eventId, seatId, holder, AssignedAction));
      if !ok {
        seats, log := savedSeats, savedLog;
        return Err(UniqueViolation), order;
      }
      return Ok(Some(seatId)), order;
    }

    method AssignSeatToGuest(c: GuestClaim) returns (r: Result<Option<Id>, Error>, ghost a: Answers)
      modifies this
      ensures AnswersGuest(old(seats), c, a)
      ensures match GuestTx(old(Now()), c, a)
        case Ok(done) => r == Ok(done.seat) && Now() == done.db
        case Err(error) => r == Err(error) && Now() == old(Now())
      ensures GuestOutcome(old(Now()), c, r, Now())
    {
      hide Write, GuestOutcome;
      var existing := FindFirst((s: Seat) => c.Holds(s));
      var reserved := FindFirst((s: Seat) => c.IsReserved(s));
      var free := FindFirst((s: Seat) => s.eventId == c.eventId && s.IsFree());
      a := Answers(existing, reserved, free);
      GuestTxDoes(Now(), c, a);
      if existing.Some? {
        return Ok(existing), a;
      }
      var chosen := if c.seatId.Some? then (if c.seatId.value in seats then c.seatId else None)
                    else if c.invitation.Some? && reserved.Some? then reserved else free;
      if chosen.None? {
        return Err(SeatUnavailable), a;
      }
      var seat := seats[chosen.value];
      if seat.eventId != c.eventId {
        return Err(EventMismatch), a;
      }
      if !seat.ReservedFor(c.invitation) && !seat.IsFree() {
        return Err(SeatUnavailable), a;
      }
      var holder := Holder(Some(c.guest), if c.invitation.Some? then c.invitation else seat.holder.invitation);
      var ok := UpdateRow(chosen.value,
                          seat.(holder := holder, status := Assigned,
                                note := if c.note.Some? then c.note else seat.note),
                          LogEntry(c.eventId, chosen.value, Holder(Some(c.guest), c.invitation), AssignedAction));
      return if ok then Ok(chosen) else Err(UniqueViolation), a;
    }

    method ReserveSeatForInvitation(e: Id, invitation: Id) returns (r: Result<Option<Id>, Error>, ghost a: Answers)
      modifies this
      ensures AnswersInvitation(old(seats), e, invitation, a)
      ensures match ReserveTx(old(Now()), e, invitation, a)
        case Ok(done) => r == Ok(done.seat) && Now() == done.db
        case Err(error) => r == Err(error) && Now() == old(Now())
      ensures InvitationOutcome(old(Now()), e, invitation, r, Now())
    {
      hide Write, InvitationOutcome;
      var existing := FindFirst((s: Seat) => s.eventId == e && s.holder.invitation == Some(invitation));
      var free := FindFirst((s: Seat) => s.eventId == e && s.IsFree());
      a := Answers(existing, None, free);
      ReserveTxDoes(Now(), e, invitation, a);
      if existing.Some? {
        return Ok(existing), a;
      }
      if free.None? {
        return Err(SeatUnavailable), a;
      }
      var holder := Holder(None, Some(invitation));
      var ok := UpdateRow(free.value, seats[free.value].(holder := holder, status := Reserved),
                          LogEntry(e, free.value, holder, AssignedAction));
      return if ok then Ok(free) else Err(UniqueViolation), a;
    }

    method UnassignSeat(seatId: Id)
      modifies this
      ensures Now() == UnassignTx(old(Now()), seatId)
      ensures UnassignOutcome(old(Now()), seatId, Now())
    {
      if seatId !in seats {
        return;
      }
      var seat := seats[seatId];
      if seat.holder == NOBODY {
        return;
      }
      seats := seats[seatId := seat.Released()];
      log := log + [LogEntry(seat.eventId, seatId, seat.holder, UnassignedAction)];
    }

    method UnassignSeatsByGuestId(guest: Id) returns (ghost order: seq<Id>)
      modifies this
      ensures ListsSeatsOf(old(seats), guest, order)
      ensures Now() == UnassignAll(old(Now()), order)
      ensures GuestLeaves(old(Now()), guest, Now())
    {
      hide GuestLeaves;
      ghost var start := Now();
      var rows := seats;
      var held := set id | id in rows && rows[id].holder.guest == Some(guest);
      order := [];
      while held != {}
        invariant forall k :: 0 <= k < |order| ==>
          order[k] in rows && rows[order[k]].holder.guest == Some(guest) && order[k] !in held
        invariant forall id :: id in rows && rows[id].holder.guest == Some(guest) ==> id in order || id in held
        invariant forall id :: id in held ==> id in rows && rows[id].holder.guest == Some(guest)
        invariant forall a, b :: 0 <= a < b < |order| ==> order[a] != order[b]
        invariant Now() == UnassignAll(old(Now()), order)
        decreases held
      {
        var id :| id in held;
        UnassignSeat(id);
        assert (order + [id])[..|order|] == order;
        order := order + [id];
        held := held - {id};
      }
      UnassignAllDoes(start, guest, order);
    }
  }
}
