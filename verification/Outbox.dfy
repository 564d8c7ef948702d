/**
  The analytics outbox (analytics-outbox.publisher.ts): any number of publisher instances poll for ready
  records, claim them one at a time by a conditional update that takes a lease, send, and record the outcome.
  Every database call and every send is a step of its own, so instances interleave freely. Times are
  milliseconds on one shared clock.
 */
module Outbox {
  import opened Outcomes
  import opened Numbers

  type Id = string
  type Instance = nat
  type Time = int

  const LEASE := 60000
  const MAX_ATTEMPTS := 10
  const MAX_DELAY := 300000
  const BATCH := 50

  datatype Record = Record(
    attempts: nat, nextAttemptAt: Time, lockedAt: Option<Time>, lockedBy: Option<Instance>,
    publishedAt: Option<Time>, deadLetteredAt: Option<Time>)
  {
    predicate IsFinal() {
      publishedAt.Some? || deadLetteredAt.Some?
    }

    /** Nobody holds an unexpired lease. */
    predicate Claimable(now: Time) {
      !IsFinal() && (lockedAt.None? || lockedAt.value < now - LEASE)
    }

    predicate Ready(now: Time) {
      Claimable(now) && nextAttemptAt <= now
    }
  }

  /** A polled record, with the attempts that it had then. */
  datatype Candidate = Candidate(id: Id, attempts: nat)

  datatype Stage = Claimed | Loaded | Sent | Failed

  /** What an instance is doing; `attempts` is what it read once the record is loaded. */
  datatype Phase =
    | Idle
    | Polling(todo: seq<Candidate>)
    | Working(stage: Stage, id: Id, since: Time, attempts: nat, todo: seq<Candidate>)

  /** A failure as it was recorded: when, and by whom. */
  datatype Failure = Failure(time: Time, instance: Instance)

  /** The failures, the last failures and the deliveries are what really happened; no instance reads them. */
  datatype System = System(
    now: Time, records: map<Id, Record>, phases: map<Instance, Phase>, failures: map<Id, nat>,
    lastFailure: map<Id, Failure>, deliveries: map<Id, nat>)
  {
    function PhaseOf(i: Instance): Phase {
      if i in phases then phases[i] else Idle
    }

    function WithPhase(i: Instance, p: Phase): System {
      this.(phases := phases[i := p])
    }
  }

  /** Die: the process stops, or an exception ends its tick; either way it forgets what it was doing. */
  datatype Event =
    | Tick(to: Time)
    | Poll(i: Instance, todo: seq<Candidate>)
    | Claim(i: Instance)
    | Load(i: Instance)
    | Send(i: Instance, ok: bool)
    | SaveSuccess(i: Instance, ok: bool)
    | SaveFailure(i: Instance)
    | Die(i: Instance)

  function PowerOfTwo(n: nat): nat {
    if n == 0 then 1 else 2 * PowerOfTwo(n - 1)
  }

  function RetryDelay(attempts: nat): int {
    Min(MAX_DELAY, PowerOfTwo(attempts) * 1000)
  }

  function AfterFailure(r: Record, attempts: nat, now: Time): Record {
    var unlocked := r.(attempts := attempts, lockedAt := None, lockedBy := None);
    if attempts >= MAX_ATTEMPTS then unlocked.(deadLetteredAt := Some(now))
    else unlocked.(nextAttemptAt := now + RetryDelay(attempts))
  }

  predicate DistinctIds(todo: seq<Candidate>) {
    forall a, b :: 0 <= a < b < |todo| ==> todo[a].id != todo[b].id
  }

  /** What the query returns: at most a batch of ready rows, each once. */
  predicate IsPolled(s: System, todo: seq<Candidate>) {
    && |todo| <= BATCH && DistinctIds(todo)
    && forall k :: 0 <= k < |todo| ==>
         && todo[k].id in s.records && s.records[todo[k].id].Ready(s.now)
         && todo[k].attempts == s.records[todo[k].id].attempts
  }

  /** The assumption on time: no publish that is still alive outlasts its lease. */
  predicate WithinLeases(s: System, to: Time) {
    forall i :: i in s.phases && s.phases[i].Working? ==> to <= s.phases[i].since + LEASE
  }

  predicate Enabled(s: System, event: Event) {
    match event
    case Tick(to) => s.now <= to && WithinLeases(s, to)
    case Poll(i, todo) => s.PhaseOf(i).Idle? && IsPolled(s, todo)
    case Claim(i) => s.PhaseOf(i).Polling? && (s.PhaseOf(i).todo != [] ==> s.PhaseOf(i).todo[0].id in s.records)
    case Load(i) => AtStage(s, i, Claimed)
    case Send(i, _) => AtStage(s, i, Loaded)
    case SaveSuccess(i, _) => AtStage(s, i, Sent)
    case SaveFailure(i) => AtStage(s, i, Failed)
    case Die(_) => true
  }

  predicate AtStage(s: System, i: Instance, stage: Stage) {
    s.PhaseOf(i).Working? && s.PhaseOf(i).stage == stage && s.PhaseOf(i).id in s.records
  }

  /** The conditional update; a record that is final or leased is passed over. */
  function ClaimNext(s: System, i: Instance, todo: seq<Candidate>): System
    requires todo != [] && todo[0].id in s.records
  {
    var id := todo[0].id;
    var r := s.records[id];
    if !r.Claimable(s.now) then s.WithPhase(i, Polling(todo[1..]))
    else
      s.(records := s.records[id := r.(lockedAt := Some(s.now), lockedBy := Some(i))])
       .WithPhase(i, Working(Claimed, id, s.now, 0, todo[1..]))
  }

  function Count(m: map<Id, nat>, id: Id): nat {
    if id in m then m[id] else 0
  }

  function Next(s: System, event: Event): System
    requires Enabled(s, event)
  {
    match event
    case Tick(to) => s.(now := to)
    case Poll(i, todo) => s.WithPhase(i, Polling(todo))
    case Claim(i) =>
      var todo := s.PhaseOf(i).todo;
      if todo == [] then s.WithPhase(i, Idle) else ClaimNext(s, i, todo)
    case Load(i) =>
      var p := s.PhaseOf(i);
      s.WithPhase(i, p.(stage := Loaded, attempts := s.records[p.id].attempts))
    case Send(i, ok) =>
      var p := s.PhaseOf(i);
      if ok then s.(deliveries := s.deliveries[p.id := Count(s.deliveries, p.id) + 1]).WithPhase(i, p.(stage := Sent))
      else s.WithPhase(i, p.(stage := Failed))
    case SaveSuccess(i, ok) =>
      var p := s.PhaseOf(i);
      if ok then
        var published := s.records[p.id].(publishedAt := Some(s.now), lockedAt := None, lockedBy := None);
        s.(records := s.records[p.id := published])
         .WithPhase(i, Polling(p.todo))
      else s.WithPhase(i, p.(stage := Failed))
    case SaveFailure(i) =>
      var p := s.PhaseOf(i);
      s.(records := s.records[p.id := AfterFailure(s.records[p.id], p.attempts + 1, s.now)],
         failures := s.failures[p.id := Count(s.failures, p.id) + 1],
         lastFailure := s.lastFailure[p.id := Failure(s.now, i)])
       .WithPhase(i, Polling(p.todo))
    case Die(i) => s.WithPhase(i, Idle)
  }

  ghost predicate IsRun(states: seq<System>, events: seq<Event>) {
    && |states| == |events| + 1
    && forall k :: 0 <= k < |events| ==> Enabled(states[k], events[k]) && states[k + 1] == Next(states[k], events[k])
  }

  // ---------- The invariant

  /** A working instance holds the lease of its record, within time, and has read the current attempts. */
  ghost predicate HoldsLease(s: System, i: Instance) {
    var p := s.PhaseOf(i);
    p.Working? ==>
      && p.id in s.records && p.since <= s.now <= p.since + LEASE
      && s.records[p.id].lockedAt == Some(p.since) && s.records[p.id].lockedBy == Some(i)
      && !s.records[p.id].IsFinal()
      && (p.stage != Claimed ==> p.attempts == s.records[p.id].attempts)
      && (p.stage == Sent ==> Count(s.deliveries, p.id) > 0)
  }

  /**
    Attempts are the failures that were recorded; a record is dead exactly from the tenth on. The next attempt of a
    record that has failed and is not dead is due one delay after its last failure.
   */
  ghost predicate Accounted(s: System, id: Id) {
    id in s.records ==>
      var r := s.records[id];
      && r.attempts == Count(s.failures, id) <= MAX_ATTEMPTS
      && (r.deadLetteredAt.Some? <==> r.attempts == MAX_ATTEMPTS)
      && !(r.publishedAt.Some? && r.deadLetteredAt.Some?)
      && (r.publishedAt.Some? ==> Count(s.deliveries, id) > 0)
      && (r.attempts > 0 && r.deadLetteredAt.None? ==> id in s.lastFailure && r.nextAttemptAt == DueTime(s, id))
  }

  /** One retry delay after the last failure. */
  function DueTime(s: System, id: Id): Time
    requires id in s.records && id in s.lastFailure
  {
    s.lastFailure[id].time + RetryDelay(s.records[id].attempts)
  }

  /** Ready when instance i polled; whatever failure was recorded since is another instance's. */
  ghost predicate Polled(s: System, i: Instance, c: Candidate) {
    && c.id in s.records && c.attempts <= s.records[c.id].attempts
    && (c.attempts == s.records[c.id].attempts ==> s.records[c.id].nextAttemptAt <= s.now)
    && (c.attempts < s.records[c.id].attempts ==> c.id in s.lastFailure && s.lastFailure[c.id].instance != i)
  }

  ghost predicate Unlisted(todo: seq<Candidate>, id: Id) {
    forall k :: 0 <= k < |todo| ==> todo[k].id != id
  }

  /** What an instance has still to do was ready when it polled, and is not what it works on. */
  ghost predicate TodoFits(s: System, i: Instance) {
    var p := s.PhaseOf(i);
    !p.Idle? ==>
      && DistinctIds(p.todo)
      && (p.Working? ==> Unlisted(p.todo, p.id))
      && forall k :: 0 <= k < |p.todo| ==> Polled(s, i, p.todo[k])
  }

  ghost predicate Sound(s: System) {
    && (forall i :: HoldsLease(s, i) && TodoFits(s, i))
    && (forall id :: Accounted(s, id))
  }
}
