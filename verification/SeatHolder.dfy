/**
  Who holds a seat (seat-write.service.ts). Seat rows are a map, the assignment log is append-only, and each
  operation is one transaction: it yields a new database or an error, and an error leaves nothing behind.
  What a query without a unique answer returned is a parameter, constrained to be a possible answer.
 */
module SeatHolder {
  import opened Outcomes

  type Id = string

  datatype Status = Available | Reserved | Assigned | Blocked

  datatype Holder = Holder(guest: Option<Id>, invitation: Option<Id>)

  const NOBODY := Holder(None, None)

  datatype Seat = Seat(eventId: Id, holder: Holder, status: Status, note: Option<string>, createdAt: int) {

    predicate IsFree() {
      status == Available && holder == NOBODY
    }

    predicate ReservedFor(invitation: Option<Id>) {
      invitation.Some? && holder == Holder(None, invitation)
    }

    function Released(): Seat {
      this.(holder := NOBODY, note := None, status := Available)
    }
  }

  type Seats = map<Id, Seat>

  datatype Action = AssignedAction | UnassignedAction

  datatype LogEntry = LogEntry(eventId: Id, seatId: Id, holder: Holder, action: Action)

  datatype Db = Db(seats: Seats, log: seq<LogEntry>)

  datatype Error = HolderConflict | SeatNotFound | SeatUnavailable | EventMismatch | UniqueViolation

  /** The database after the call, and the seat that the call returns, if any. */
  datatype Done = Done(db: Db, seat: Option<Id>)

  // ---------- Constraints and queries

  predicate Clashes(a: Seat, b: Seat) {
    && a.eventId == b.eventId
    && ((a.holder.guest.Some? && a.holder.guest == b.holder.guest)
        || (a.holder.invitation.Some? && a.holder.invitation == b.holder.invitation))
  }

  /** The unique indexes (event, guest) and (event, invitation); nulls never clash. */
  predicate Unique(seats: Seats) {
    forall a, b :: a in seats && b in seats && a != b ==> !Clashes(seats[a], seats[b])
  }

  /** Write a row; the database refuses one that breaks a unique index. */
  function Write(seats: Seats, id: Id, seat: Seat): (r: Result<Seats, Error>)
    ensures r.Err? ==> r.error == UniqueViolation
  {
    if exists other :: other in seats && other != id && Clashes(seats[other], seat) then Err(UniqueViolation)
    else Ok(seats[id := seat])
  }

  /** An answer of a query for a first row: None only if no row matches. */
  ghost predicate AnswersFirst(seats: Seats, matches: Seat -> bool, answer: Option<Id>) {
    match answer
    case Some(id) => id in seats && matches(seats[id])
    case None => forall id :: id in seats ==> !matches(seats[id])
  }

  /** The same, ordered by creation time. */
  ghost predicate AnswersOldest(seats: Seats, matches: Seat -> bool, answer: Option<Id>) {
    && AnswersFirst(seats, matches, answer)
    && (answer.Some? ==> forall id :: id in seats && matches(seats[id]) ==>
          seats[answer.value].createdAt <= seats[id].createdAt)
  }

  // ---------- assignSeat

  predicate ConflictsWith(seats: Seats, seatId: Id, holder: Holder, other: Id)
    requires seatId in seats
  {
    other in seats && other != seatId && Clashes(Seat(seats[seatId].eventId, holder, Assigned, None, 0), seats[other])
  }

  /** The other seats that the subject holds in the event, in the order in which the query listed them. */
  ghost predicate ListsConflicts(seats: Seats, seatId: Id, holder: Holder, order: seq<Id>)
    requires seatId in seats
  {
    && (forall k :: 0 <= k < |order| ==> ConflictsWith(seats, seatId, holder, order[k]))
    && (forall other :: ConflictsWith(seats, seatId, holder, other) ==> other in order)
    && (forall a, b :: 0 <= a < b < |order| ==> order[a] != order[b])
  }

  function ReleaseOne(db: Db, id: Id): Db
    requires id in db.seats
  {
    var seat := db.seats[id];
    Db(db.seats[id := seat.Released()], db.log + [LogEntry(seat.eventId, id, seat.holder, UnassignedAction)])
  }

  function ReleaseAll(db: Db, order: seq<Id>): (r: Db)
    requires forall k :: 0 <= k < |order| ==> order[k] in db.seats
    ensures r.seats.Keys == db.seats.Keys
  {
    if order == [] then db else ReleaseOne(ReleaseAll(db, order[..|order| - 1]), order[|order| - 1])
  }

  function AssignTx(db: Db, seatId: Id, holder: Holder, note: Option<string>, order: seq<Id>): (r: Result<Done, Error>)
    requires forall k :: 0 <= k < |order| ==> order[k] in db.seats
  {
    if holder.guest.Some? && holder.invitation.Some? then Err(HolderConflict)
    else if seatId !in db.seats then Err(SeatNotFound)
    else
      var seat := db.seats[seatId];
      if holder == NOBODY then
        if seat.holder == NOBODY then Ok(Done(db, Some(seatId)))
        else
          var seats :- Write(db.seats, seatId, seat.(holder := NOBODY, note := note, status := Available));
          Ok(Done(Db(seats, db.log + [LogEntry(seat.eventId, seatId, seat.holder, UnassignedAction)]), Some(seatId)))
      else
        var freed := ReleaseAll(db, order);
        var target := freed.seats[seatId];
        if !target.IsFree() && target.holder != holder then Err(SeatUnavailable)
        else
          var seats :- Write(freed.seats, seatId, target.(holder := holder, note := note, status := Assigned));
          Ok(Done(Db(seats, freed.log + [LogEntry(seat.eventId, seatId, holder, AssignedAction)]), Some(seatId)))
  }

  // ---------- The two claims

  datatype Mode = FromFree | FromReserved

  /** The conditional update of assignSeatToGuest. An absent invitation or note leaves its column as it is. */
  function ClaimForGuest(db: Db, e: Id, seatId: Id, mode: Mode, guest: Id, invitation: Option<Id>, note: Option<string>)
    : Result<Done, Error>
  {
    if seatId !in db.seats || db.seats[seatId].eventId != e then Err(SeatUnavailable)
    else
      var seat := db.seats[seatId];
      if !(if mode == FromReserved then seat.ReservedFor(invitation) else seat.IsFree()) then Err(SeatUnavailable)
      else
        var holder := Holder(Some(guest), if invitation.Some? then invitation else seat.holder.invitation);
        var seats :- Write(db.seats, seatId,
          seat.(holder := holder, status := Assigned, note := if note.Some? then note else seat.note));
        Ok(Done(Db(seats, db.log + [LogEntry(e, seatId, Holder(Some(guest), invitation), AssignedAction)]),
                Some(seatId)))
  }

  /** The conditional update of reserveSeatForInvitation. */
  function ClaimForInvitation(db: Db, e: Id, seatId: Id, invitation: Id): Result<Done, Error> {
    if seatId !in db.seats || db.seats[seatId].eventId != e || !db.seats[seatId].IsFree() then Err(SeatUnavailable)
    else
      var holder := Holder(None, Some(invitation));
      var seats :- Write(db.seats, seatId, db.seats[seatId].(holder := holder, status := Reserved));
      Ok(Done(Db(seats, db.log + [LogEntry(e, seatId, holder, AssignedAction)]), Some(seatId)))
  }

  datatype GuestClaim = GuestClaim(eventId: Id, seatId: Option<Id>, guest: Id, invitation: Option<Id>,
                                   note: Option<string>) {

    /** An absent invitation is no filter at all. */
    predicate Holds(seat: Seat) {
      seat.eventId == eventId && seat.holder.guest == Some(guest)
        && (invitation.None? || seat.holder.invitation == invitation)
    }

    predicate IsReserved(seat: Seat) {
      seat.eventId == eventId && seat.ReservedFor(invitation)
    }
  }

  /** What the three queries of a claim returned. */
  datatype Answers = Answers(existing: Option<Id>, reserved: Option<Id>, free: Option<Id>)

  ghost predicate AnswersGuest(seats: Seats, c: GuestClaim, a: Answers) {
    && AnswersFirst(seats, (s: Seat) => c.Holds(s), a.existing)
    && AnswersOldest(seats, (s: Seat) => c.IsReserved(s), a.reserved)
    && AnswersOldest(seats, (s: Seat) => s.eventId == c.eventId && s.IsFree(), a.free)
  }

  function GuestTx(db: Db, c: GuestClaim, a: Answers): Result<Done, Error> {
    if a.existing.Some? then Ok(Done(db, a.existing))
    else
      var chosen := if c.seatId.Some? then (if c.seatId.value in db.seats then c.seatId else None)
                    else if c.invitation.Some? && a.reserved.Some? then a.reserved else a.free;
      if chosen.None? || chosen.value !in db.seats then Err(SeatUnavailable)
      else if db.seats[chosen.value].eventId != c.eventId then Err(EventMismatch)
      else
        var mode := if db.seats[chosen.value].ReservedFor(c.invitation) then FromReserved else FromFree;
        ClaimForGuest(db, c.eventId, chosen.value, mode, c.guest, c.invitation, c.note)
  }

  ghost predicate AnswersInvitation(seats: Seats, e: Id, invitation: Id, a: Answers) {
    && AnswersFirst(seats, (s: Seat) => s.eventId == e && s.holder.invitation == Some(invitation), a.existing)
    && AnswersOldest(seats, (s: Seat) => s.eventId == e && s.IsFree(), a.free)
  }

  function ReserveTx(db: Db, e: Id, invitation: Id, a: Answers): Result<Done, Error> {
    if a.existing.Some? then Ok(Done(db, a.existing))
    else if a.free.None? then Err(SeatUnavailable)
    else ClaimForInvitation(db, e, a.free.value, invitation)
  }

  // ---------- unassignSeat

  function UnassignTx(db: Db, seatId: Id): Db {
    if seatId !in db.seats || db.seats[seatId].holder == NOBODY then db else ReleaseOne(db, seatId)
  }

  function UnassignAll(db: Db, order: seq<Id>): (r: Db)
    ensures r.seats.Keys == db.seats.Keys
  {
    if order == [] then db else UnassignTx(UnassignAll(db, order[..|order| - 1]), order[|order| - 1])
  }

  /** The seats that a guest holds, in any event. */
  ghost predicate ListsSeatsOf(seats: Seats, guest: Id, order: seq<Id>) {
    && (forall k :: 0 <= k < |order| ==> order[k] in seats && seats[order[k]].holder.guest == Some(guest))
    && (forall id :: id in seats && seats[id].holder.guest == Some(guest) ==> id in order)
    && (forall a, b :: 0 <= a < b < |order| ==> order[a] != order[b])
  }
}
