/**
  Claims in flight: any number of assignSeatToGuest and reserveSeatForInvitation calls, each first choosing a
  seat from reads that may be arbitrarily stale, later committing its conditional update. Nothing is known
  about the chosen seat at commit time except what the update itself checks.
 */
module SeatClaims {
  import opened Outcomes
  import opened SeatHolder
  import opened SeatLog

  type Pid = nat

  datatype Request =
    | ForGuest(eventId: Id, guest: Id, invited: Option<Id>, note: Option<string>)
    | ForInvitation(eventId: Id, invitation: Id)

  /** A call that has finished its reads and is about to commit. */
  datatype Pending = Pending(request: Request, seat: Id, mode: Mode)

  /** A committed claim: the seat, how it was claimed, and its holder from then on. */
  datatype Win = Win(seat: Id, mode: Mode, holder: Holder)

  datatype System = System(db: Db, pending: map<Pid, Pending>, wins: seq<Win>)

  datatype Event = Choose(pid: Pid, pending: Pending) | Commit(pid: Pid)

  /** Only a guest claim with an invitation can take the reserved path. */
  predicate CanChoose(p: Pending) {
    p.mode == FromReserved ==> p.request.ForGuest? && p.request.invited.Some?
  }

  predicate Enabled(s: System, event: Event) {
    match event
    case Choose(pid, p) => pid !in s.pending && CanChoose(p)
    case Commit(pid) => pid in s.pending
  }

  function Outcome(db: Db, p: Pending): Result<Done, Error> {
    match p.request
    case ForGuest(e, guest, invitation, note) => ClaimForGuest(db, e, p.seat, p.mode, guest, invitation, note)
    case ForInvitation(e, invitation) => ClaimForInvitation(db, e, p.seat, invitation)
  }

  /** A commit that finds its seat taken, or that a unique index refuses, changes nothing. */
  function Next(s: System, event: Event): System
    requires Enabled(s, event)
  {
    match event
    case Choose(pid, p) => s.(pending := s.pending[pid := p])
    case Commit(pid) =>
      var p := s.pending[pid];
      var rest := s.pending - {pid};
      match Outcome(s.db, p)
      case Err(_) => System(s.db, rest, s.wins)
      case Ok(done) =>
        var holder := if p.seat in done.db.seats then done.db.seats[p.seat].holder else NOBODY;
        System(done.db, rest, s.wins + [Win(p.seat, p.mode, holder)])
  }

  ghost predicate IsRun(states: seq<System>, events: seq<Event>) {
    && |states| == |events| + 1
    && forall k :: 0 <= k < |events| ==> Enabled(states[k], events[k]) && states[k + 1] == Next(states[k], events[k])
  }

  /** A whole guest claim that gets as far as its update is one of these choices, committed at once. */
  lemma GuestClaimIsChosen(db: Db, c: GuestClaim, a: Answers)
    requires AnswersGuest(db.seats, c, a) && a.existing.None? && GuestTx(db, c, a).Ok?
    ensures exists p :: CanChoose(p) && p.request == ForGuest(c.eventId, c.guest, c.invitation, c.note)
                        && Outcome(db, p) == GuestTx(db, c, a)
  {
    var chosen := if c.seatId.Some? then c.seatId.value
                  else if c.invitation.Some? && a.reserved.Some? then a.reserved.value else a.free.value;
    var mode := if db.seats[chosen].ReservedFor(c.invitation) then FromReserved else FromFree;
    var p := Pending(ForGuest(c.eventId, c.guest, c.invitation, c.note), chosen, mode);
    assert CanChoose(p) && Outcome(db, p) == GuestTx(db, c, a);
  }

  // ---------- How a seat may change hands

  /** Free, then reserved for an invitation, then assigned to a guest of that invitation; or straight to a guest. */
  predicate Evolves(older: Holder, newer: Holder) {
    || newer == older
    || older == NOBODY
    || (older.guest.None? && older.invitation.Some? && newer.guest.Some? && newer.invitation == older.invitation)
  }

  lemma EvolvesTransitive(a: Holder, b: Holder, c: Holder)
    requires Evolves(a, b) && Evolves(b, c)
    ensures Evolves(a, c)
  {
  }

  ghost predicate Sound(s: System) {
    Good(s.db) && forall pid :: pid in s.pending ==> CanChoose(s.pending[pid])
  }

  /** A step keeps the database well-formed, and moves no holder except along its one path. */
  lemma StepEvolves(s: System, event: Event)
    requires Sound(s) && Enabled(s, event)
    ensures Sound(Next(s, event)) && Next(s, event).db.seats.Keys == s.db.seats.Keys
    ensures forall id :: id in s.db.seats ==> Evolves(s.db.seats[id].holder, Next(s, event).db.seats[id].holder)
  {
    match event
    case Choose(_, _) =>
    case Commit(pid) =>
      var p := s.pending[pid];
      match p.request
      case ForGuest(e, guest, invitation, note) =>
        GuestClaimKeepsGood(s.db, e, p.seat, p.mode, guest, invitation, note);
      case ForInvitation(e, invitation) =>
        InvitationClaimKeepsGood(s.db, e, p.seat, invitation);
  }

  lemma {:induction false} RunIsSound(states: seq<System>, events: seq<Event>, k: nat)
    requires IsRun(states, events) && Sound(states[0]) && k < |states|
    ensures Sound(states[k]) && states[k].db.seats.Keys == states[0].db.seats.Keys
  {
    if k > 0 {
      RunIsSound(states, events, k - 1);
      StepEvolves(states[k - 1], events[k - 1]);
    }
  }

  /** In every interleaving, between any two moments, every seat's holder has only moved along its path. */
  lemma {:induction false} HoldersEvolve(states: seq<System>, events: seq<Event>, i: nat, j: nat, id: Id)
    requires IsRun(states, events) && Sound(states[0]) && i <= j < |states| && id in states[0].db.seats
    ensures id in states[i].db.seats && id in states[j].db.seats
    ensures Evolves(states[i].db.seats[id].holder, states[j].db.seats[id].holder)
    decreases j
  {
    hide Sound, Enabled, Next;
    RunIsSound(states, events, i);
    RunIsSound(states, events, j);
    if i < j {
      HoldersEvolve(states, events, i, j - 1, id);
      RunIsSound(states, events, j - 1);
      StepEvolves(states[j - 1], events[j - 1]);
      EvolvesTransitive(states[i].db.seats[id].holder, states[j - 1].db.seats[id].holder,
                        states[j].db.seats[id].holder);
    }
  }

  // ---------- Winners

  /** How far a seat has come: free, held without a guest, held by a guest. */
  function Stage(seat: Seat): nat {
    if seat.IsFree() then 0 else if seat.holder.guest.None? then 1 else 2
  }

  /** A win found the seat at the stage that its update checks, and left it further on. */
  lemma WinAdvances(s: System, pid: Pid)
    requires Sound(s) && pid in s.pending && Outcome(s.db, s.pending[pid]).Ok?
    ensures var p, after := s.pending[pid], Next(s, Commit(pid));
      && p.seat in s.db.seats && p.seat in after.db.seats
      && Stage(s.db.seats[p.seat]) == (if p.mode == FromReserved then 1 else 0)
      && Stage(after.db.seats[p.seat]) > Stage(s.db.seats[p.seat])
      && (p.mode == FromReserved ==>
            s.db.seats[p.seat].holder == Holder(None, after.db.seats[p.seat].holder.invitation))
      && after.db.seats[p.seat].holder != NOBODY
      && after.wins == s.wins + [Win(p.seat, p.mode, after.db.seats[p.seat].holder)]
      && forall other :: other in s.db.seats && other != p.seat ==> after.db.seats[other] == s.db.seats[other]
  {
    hide Good, Clashes;
  }

  /** A win lies behind its seat's current stage, on the path of its holders. */
  ghost predicate Behind(seats: Seats, w: Win) {
    && w.seat in seats && w.holder != NOBODY && Evolves(w.holder, seats[w.seat].holder)
    && Stage(seats[w.seat]) > if w.mode == FromReserved then 1 else 0
  }

  /** Of two wins of one seat, the earlier reserved it for the invitation with which the later claimed it. */
  predicate Ordered(earlier: Win, later: Win) {
    earlier.seat == later.seat ==>
      && earlier.mode == FromFree && later.mode == FromReserved
      && earlier.holder == Holder(None, later.holder.invitation)
  }

  ghost predicate WinsBehind(s: System) {
    && (forall k :: 0 <= k < |s.wins| ==> Behind(s.db.seats, s.wins[k]))
    && (forall i, j :: 0 <= i < j < |s.wins| ==> Ordered(s.wins[i], s.wins[j]))
  }

  /** An earlier win stays behind, and in order with the win that follows it. */
  lemma EarlierWin(s: System, pid: Pid, w: Win)
    requires Sound(s) && pid in s.pending && Outcome(s.db, s.pending[pid]).Ok? && Behind(s.db.seats, w)
    ensures var p, after := s.pending[pid], Next(s, Commit(pid));
      && p.seat in after.db.seats
      && Behind(after.db.seats, w) && Ordered(w, Win(p.seat, p.mode, after.db.seats[p.seat].holder))
  {
    hide Outcome, Next, Stage, Sound;
    WinAdvances(s, pid);
    StepEvolves(s, Commit(pid));
  }

  lemma CommitKeepsWins(s: System, pid: Pid)
    requires Sound(s) && pid in s.pending && Outcome(s.db, s.pending[pid]).Ok? && WinsBehind(s)
    ensures WinsBehind(Next(s, Commit(pid)))
  {
    hide Outcome, Next, Stage, Sound, Ordered;
    WinAdvances(s, pid);
    forall k | 0 <= k < |s.wins| { EarlierWin(s, pid, s.wins[k]); }
  }

  lemma StepKeepsWins(s: System, event: Event)
    requires Sound(s) && Enabled(s, event) && WinsBehind(s)
    ensures WinsBehind(Next(s, event))
  {
    hide ClaimForGuest, ClaimForInvitation, Good, Stage;
    if event.Commit? && Outcome(s.db, s.pending[event.pid]).Ok? { CommitKeepsWins(s, event.pid); }
  }

  /**
    In every interleaving, a seat is won at most once while free and at most once while reserved; if both, the
    reservation came first and the guest claimed the same invitation.
   */
  lemma {:induction false} CompetingClaims(states: seq<System>, events: seq<Event>, n: nat)
    requires IsRun(states, events) && Sound(states[0]) && states[0].wins == [] && n < |states|
    ensures WinsBehind(states[n])
  {
    if n > 0 {
      CompetingClaims(states, events, n - 1);
      RunIsSound(states, events, n - 1);
      StepKeepsWins(states[n - 1], events[n - 1]);
    }
  }

  // ---------- Claims in flight beside whole operations

  /** A step of a claim in flight, or a whole operation between two such steps. */
  datatype Step = InFlight(event: Event) | Whole(op: Op)

  ghost predicate CanStep(s: System, step: Step) {
    match step
    case InFlight(event) => Enabled(s, event)
    case Whole(op) => Possible(s.db, op)
  }

  ghost function Stepped(s: System, step: Step): System
    requires CanStep(s, step)
  {
    match step
    case InFlight(event) => Next(s, event)
    case Whole(op) => s.(db := Perform(s.db, op))
  }

  ghost predicate IsMixedRun(states: seq<System>, steps: seq<Step>) {
    && |states| == |steps| + 1
    && forall k :: 0 <= k < |steps| ==> CanStep(states[k], steps[k]) && states[k + 1] == Stepped(states[k], steps[k])
  }

  /**
    Assignments, releases, creation and deletion of seats between the read and the update of any claims: in every
    state the log replays to every live seat's holder, and the rows keep their indexes and statuses.
   */
  lemma {:induction false} MixedRunIsSound(states: seq<System>, steps: seq<Step>, k: nat)
    requires IsMixedRun(states, steps) && Sound(states[0]) && k < |states|
    ensures Sound(states[k])
  {
    if k > 0 {
      MixedRunIsSound(states, steps, k - 1);
      StepIsSound(states[k - 1], steps[k - 1]);
    }
  }

  lemma StepIsSound(s: System, step: Step)
    requires Sound(s) && CanStep(s, step)
    ensures Sound(Stepped(s, step))
  {
    hide Good, Perform, Possible, Next, Enabled;
    match step
    case InFlight(event) => StepEvolves(s, event);
    case Whole(op) => PerformKeepsGood(s.db, op);
  }
}
