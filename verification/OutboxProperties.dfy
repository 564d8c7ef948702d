/** What every interleaving of publishers keeps. */
module OutboxProperties {
  import opened Outcomes
  import opened Outbox
  import opened OutboxRecords

  /** Two live publishers never hold the same record. */
  lemma OnePublisher(s: System, i: Instance, j: Instance)
    requires Sound(s) && s.PhaseOf(i).Working? && s.PhaseOf(j).Working? && s.PhaseOf(i).id == s.PhaseOf(j).id
    ensures i == j
  {
    assert HoldsLease(s, i) && HoldsLease(s, j);
  }

  /** A record that can be claimed has no live publisher. */
  lemma ClaimableIsUnheld(s: System, id: Id, j: Instance)
    requires Sound(s) && id in s.records && s.records[id].Claimable(s.now)
    ensures s.PhaseOf(j).Working? ==> s.PhaseOf(j).id != id
  {
    assert HoldsLease(s, j);
  }

  lemma TickKeepsSound(s: System, to: Time)
    requires Sound(s) && Enabled(s, Tick(to))
    ensures Sound(Next(s, Tick(to)))
  {
    var s' := Next(s, Tick(to));
    forall i ensures HoldsLease(s', i) && TodoFits(s', i) {
      assert HoldsLease(s, i) && TodoFits(s, i);
      assert forall k :: !s.PhaseOf(i).Idle? && 0 <= k < |s.PhaseOf(i).todo| ==> Polled(s, i, s.PhaseOf(i).todo[k]);
    }
    forall id ensures Accounted(s', id) { assert Accounted(s, id); }
  }

  /** A step that changes only what one instance is doing. */
  lemma PhaseKeepsSound(s: System, i: Instance, p: Phase)
    requires Sound(s) && HoldsLease(s.WithPhase(i, p), i) && TodoFits(s.WithPhase(i, p), i)
    ensures Sound(s.WithPhase(i, p))
  {
    var s' := s.WithPhase(i, p);
    forall j ensures HoldsLease(s', j) && TodoFits(s', j) {
      assert HoldsLease(s, j) && TodoFits(s, j);
      if j != i {
        assert s'.PhaseOf(j) == s.PhaseOf(j);
        forall c: Candidate | Polled(s, j, c) ensures Polled(s', j, c) {}
      }
    }
    forall id ensures Accounted(s', id) { assert Accounted(s, id); }
  }

  /**
    A step of instance i that rewrites the one record that nobody else holds: attempts do not shrink, and the time of
    the next attempt stays until they grow.
   */
  lemma RecordKeepsSound(s: System, s': System, i: Instance, id: Id)
    requires Sound(s) && id in s.records && s'.now == s.now && s'.deliveries == s.deliveries
    requires s'.records.Keys == s.records.Keys
    requires forall x :: x in s.records && x != id ==> s'.records[x] == s.records[x]
    requires forall x :: x != id ==> Count(s'.failures, x) == Count(s.failures, x)
    requires
      || (s'.lastFailure == s.lastFailure && s.records[id].attempts == s'.records[id].attempts)
      || (exists time :: s'.lastFailure == s.lastFailure[id := Failure(time, i)])
    requires s'.phases == s.phases[i := s'.PhaseOf(i)]
    requires forall j :: j != i && s.PhaseOf(j).Working? ==> s.PhaseOf(j).id != id
    requires s.records[id].attempts <= s'.records[id].attempts
    requires s.records[id].attempts == s'.records[id].attempts ==>
      s.records[id].nextAttemptAt == s'.records[id].nextAttemptAt
    requires HoldsLease(s', i) && !s.PhaseOf(i).Idle? && !s'.PhaseOf(i).Idle? && s'.PhaseOf(i).todo == Rest(s, i)
    requires (s'.PhaseOf(i).Working? ==> s'.PhaseOf(i).id == id) && Unlisted(Rest(s, i), id) && Accounted(s', id)
    ensures Sound(s')
  {
    forall j ensures HoldsLease(s', j) && TodoFits(s', j) {
      assert HoldsLease(s, j) && TodoFits(s, j);
      if j != i {
        assert s'.PhaseOf(j) == s.PhaseOf(j);
        forall c: Candidate | Polled(s, j, c) ensures Polled(s', j, c) {}
      } else {
        forall c: Candidate | Polled(s, i, c) && c.id != id ensures Polled(s', i, c) {}
      }
    }
    forall x ensures Accounted(s', x) { assert Accounted(s, x); }
  }

  /** What instance i has left to do once its present record is taken or done with. */
  ghost function Rest(s: System, i: Instance): seq<Candidate>
    requires !s.PhaseOf(i).Idle?
  {
    var p := s.PhaseOf(i);
    if p.Polling? && p.todo != [] then p.todo[1..] else p.todo
  }

  lemma ClaimKeepsSound(s: System, i: Instance)
    requires Sound(s) && Enabled(s, Claim(i))
    ensures Sound(Next(s, Claim(i)))
  {
    assert HoldsLease(s, i) && TodoFits(s, i);
    var todo := s.PhaseOf(i).todo;
    if todo == [] {
      PhaseKeepsSound(s, i, Idle);
    } else {
      var id := todo[0].id;
      if s.records[id].Claimable(s.now) {
        forall j ensures s.PhaseOf(j).Working? ==> s.PhaseOf(j).id != id { ClaimableIsUnheld(s, id, j); }
        assert Accounted(s, id);
        RecordKeepsSound(s, Next(s, Claim(i)), i, id);
      } else {
        assert forall k :: 0 <= k < |todo| - 1 ==> todo[1..][k] == todo[k + 1];
        PhaseKeepsSound(s, i, Polling(todo[1..]));
      }
    }
  }

  lemma LoadKeepsSound(s: System, i: Instance)
    requires Sound(s) && Enabled(s, Load(i))
    ensures Sound(Next(s, Load(i)))
  {
    assert HoldsLease(s, i) && TodoFits(s, i);
    var p := s.PhaseOf(i);
    PhaseKeepsSound(s, i, p.(stage := Loaded, attempts := s.records[p.id].attempts));
  }

  lemma SendKeepsSound(s: System, i: Instance, ok: bool)
    requires Sound(s) && Enabled(s, Send(i, ok))
    ensures Sound(Next(s, Send(i, ok)))
  {
    assert HoldsLease(s, i) && TodoFits(s, i);
    var p := s.PhaseOf(i);
    if ok {
      var s' := Next(s, Send(i, ok));
      forall j ensures HoldsLease(s', j) && TodoFits(s', j) {
        assert HoldsLease(s, j) && TodoFits(s, j);
        if j != i { assert s'.PhaseOf(j) == s.PhaseOf(j); }
        forall c: Candidate | Polled(s, j, c) ensures Polled(s', j, c) {}
      }
      forall id ensures Accounted(s', id) { assert Accounted(s, id); }
    } else {
      PhaseKeepsSound(s, i, p.(stage := Failed));
    }
  }

  lemma OthersElsewhere(s: System, i: Instance)
    requires Sound(s) && s.PhaseOf(i).Working?
    ensures forall j :: j != i && s.PhaseOf(j).Working? ==> s.PhaseOf(j).id != s.PhaseOf(i).id
  {
    forall j | j != i && s.PhaseOf(j).Working? ensures s.PhaseOf(j).id != s.PhaseOf(i).id {
      if s.PhaseOf(j).id == s.PhaseOf(i).id { OnePublisher(s, i, j); }
    }
  }

  lemma SaveSuccessKeepsSound(s: System, i: Instance, ok: bool)
    requires Sound(s) && Enabled(s, SaveSuccess(i, ok))
    ensures Sound(Next(s, SaveSuccess(i, ok)))
  {
    assert HoldsLease(s, i) && TodoFits(s, i);
    var p := s.PhaseOf(i);
    if ok {
      OthersElsewhere(s, i);
      assert Accounted(s, p.id);
      RecordKeepsSound(s, Next(s, SaveSuccess(i, ok)), i, p.id);
    } else {
      PhaseKeepsSound(s, i, p.(stage := Failed));
    }
  }

  lemma SaveFailureKeepsSound(s: System, i: Instance)
    requires Sound(s) && Enabled(s, SaveFailure(i))
    ensures Sound(Next(s, SaveFailure(i)))
  {
    assert HoldsLease(s, i) && TodoFits(s, i);
    OthersElsewhere(s, i);
    assert Accounted(s, s.PhaseOf(i).id);
    RecordKeepsSound(s, Next(s, SaveFailure(i)), i, s.PhaseOf(i).id);
  }

  lemma PollKeepsSound(s: System, i: Instance, todo: seq<Candidate>)
    requires Sound(s) && Enabled(s, Poll(i, todo))
    ensures Sound(Next(s, Poll(i, todo)))
  {
    PhaseKeepsSound(s, i, Polling(todo));
  }

  lemma StepKeepsSound(s: System, event: Event)
    requires Sound(s) && Enabled(s, event)
    ensures Sound(Next(s, event))
  {
    match event
    case Tick(to) => TickKeepsSound(s, to);
    case Poll(i, todo) => PollKeepsSound(s, i, todo);
    case Claim(i) => ClaimKeepsSound(s, i);
    case Load(i) => LoadKeepsSound(s, i);
    case Send(i, ok) => SendKeepsSound(s, i, ok);
    case SaveSuccess(i, ok) => SaveSuccessKeepsSound(s, i, ok);
    case SaveFailure(i) => SaveFailureKeepsSound(s, i);
    case Die(i) => PhaseKeepsSound(s, i, Idle);
  }

  /** In every reachable state of every interleaving. */
  lemma {:induction false} RunIsSound(states: seq<System>, events: seq<Event>, n: nat)
    requires IsRun(states, events) && Sound(states[0]) && n < |states|
    ensures Sound(states[n])
  {
    if n > 0 {
      RunIsSound(states, events, n - 1);
      StepKeepsSound(states[n - 1], events[n - 1]);
    }
  }

  /** A fresh outbox, with nobody at work, is where runs start. */
  lemma FreshIsSound(s: System)
    requires s.phases == map[] && s.failures == map[] && s.lastFailure == map[] && s.deliveries == map[]
    requires forall id :: id in s.records ==> s.records[id].attempts == 0 && !s.records[id].IsFinal()
    ensures Sound(s)
  {
  }

  // ---------- Records over time

  /** The step records a failure of the record. */
  predicate RecordsFailure(s: System, event: Event, id: Id) {
    event.SaveFailure? && s.PhaseOf(event.i).Working? && s.PhaseOf(event.i).id == id
  }

  predicate RecordsSuccess(s: System, event: Event, id: Id) {
    event.SaveSuccess? && event.ok && s.PhaseOf(event.i).Working? && s.PhaseOf(event.i).id == id
  }

  predicate Delivers(s: System, event: Event, id: Id) {
    event.Send? && event.ok && s.PhaseOf(event.i).Working? && s.PhaseOf(event.i).id == id
  }

  predicate TakesLease(s: System, event: Event, id: Id) {
    && event.Claim? && s.PhaseOf(event.i).Polling? && s.PhaseOf(event.i).todo != []
    && s.PhaseOf(event.i).todo[0].id == id && id in s.records && CanBeLeased(s.records[id], s.now)
  }

  /** What each step writes to a record: a lease, a publication, a failure, or nothing. Final records never change. */
  lemma StepOnRecord(s: System, event: Event, id: Id)
    requires Sound(s) && Enabled(s, event) && id in s.records
    ensures var r := s.records[id]; var s' := Next(s, event);
      && id in s'.records
      && (if TakesLease(s, event, id) then IsLeased(r, s'.records[id], event.i, s.now)
          else if RecordsSuccess(s, event, id) then IsPublished(r, s'.records[id], s.now)
          else if RecordsFailure(s, event, id) then
            HasFailed(r, s'.records[id], s.now) && id in s'.lastFailure && s'.lastFailure[id] == Failure(s.now, event.i)
          else s'.records[id] == r)
      && (r.publishedAt.Some? || r.deadLetteredAt.Some? ==> s'.records[id] == r)
      && Count(s'.failures, id) == Count(s.failures, id) + (if RecordsFailure(s, event, id) then 1 else 0)
      && Count(s'.deliveries, id) == Count(s.deliveries, id) + if Delivers(s, event, id) then 1 else 0
  {
    hide AfterFailure, HasFailed, RetryDelay;
    FailureMeans(s.records[id], s.now);
    var i := if event.Claim? || event.SaveSuccess? || event.SaveFailure? then event.i else 0;
    assert HoldsLease(s, i) && Accounted(s, id);
  }

  /** Published and dead-lettered records stay exactly as they are, for ever. */
  lemma {:induction false} FinalIsForever(states: seq<System>, events: seq<Event>, m: nat, n: nat, id: Id)
    requires IsRun(states, events) && Sound(states[0]) && m <= n < |states|
    requires id in states[m].records
    requires states[m].records[id].publishedAt.Some? || states[m].records[id].deadLetteredAt.Some?
    ensures id in states[n].records && states[n].records[id] == states[m].records[id]
    decreases n
  {
    if m < n {
      FinalIsForever(states, events, m, n - 1, id);
      RunIsSound(states, events, n - 1);
      StepOnRecord(states[n - 1], events[n - 1], id);
    }
  }

  /**
    What the books say of every record in every reachable state; the n-th recorded failure puts the next attempt off
    by 2, 4, 8, 16, 32, 64, 128, 256 and 300 seconds.
   */
  lemma Accounts(states: seq<System>, events: seq<Event>, n: nat, id: Id)
    requires IsRun(states, events) && Sound(states[0]) && n < |states| && id in states[n].records
    ensures var s := states[n]; var r := s.records[id];
      && r.attempts == Count(s.failures, id) <= 10
      && (r.deadLetteredAt.Some? <==> r.attempts == 10)
      && !(r.publishedAt.Some? && r.deadLetteredAt.Some?)
      && (r.publishedAt.Some? ==> Count(s.deliveries, id) > 0)
      && (1 <= r.attempts < 10 ==>
            id in s.lastFailure && r.nextAttemptAt == s.lastFailure[id].time + BACKOFF[r.attempts - 1])
  {
    hide RetryDelay;
    RunIsSound(states, events, n);
    assert Accounted(states[n], id);
    var attempts := states[n].records[id].attempts;
    if 1 <= attempts < 10 { DelaysAre(attempts); }
  }

  // ---------- Retry delays

  lemma {:induction false} PowerOfTwoGrows(a: nat, b: nat)
    requires a <= b
    ensures 1 <= PowerOfTwo(a) <= PowerOfTwo(b)
    decreases b
  {
    if a < b { PowerOfTwoGrows(a, b - 1); } else if a > 0 { PowerOfTwoGrows(a - 1, b - 1); }
  }

  /** Delays never shrink as attempts grow, and never exceed five minutes. */
  lemma DelaysGrow(a: nat, b: nat)
    requires a <= b
    ensures 1000 <= RetryDelay(a) <= RetryDelay(b) <= 300000
  {
    PowerOfTwoGrows(a, b);
    PowerOfTwoGrows(0, a);
  }

  // ---------- Does a claim respect the delay?

  /**
    A claim comes before the record's next attempt is due exactly if a failure was recorded since the poll, and the
    delay after the last failure has not passed. That failure is always another instance's.
   */
  lemma ClaimIsEarlyWhen(s: System, i: Instance)
    requires Sound(s) && Enabled(s, Claim(i)) && s.PhaseOf(i).todo != []
    requires CanBeLeased(s.records[s.PhaseOf(i).todo[0].id], s.now)
    ensures var c := s.PhaseOf(i).todo[0]; var r := s.records[c.id];
      && (c.attempts < r.attempts ==>
            1 <= r.attempts <= 9 && c.id in s.lastFailure && s.lastFailure[c.id].instance != i)
      && (r.nextAttemptAt > s.now <==>
            c.attempts < r.attempts && s.now < s.lastFailure[c.id].time + BACKOFF[r.attempts - 1])
  {
    hide RetryDelay;
    var c := s.PhaseOf(i).todo[0];
    assert TodoFits(s, i) && Polled(s, i, c) && Accounted(s, c.id);
    var attempts := s.records[c.id].attempts;
    if 1 <= attempts <= 9 { DelaysAre(attempts); }
  }

  ghost predicate EndsInEarlyClaim(states: seq<System>, i: Instance, id: Id) {
    |states| >= 2 &&
    var before, after := states[|states| - 2], states[|states| - 1];
    && id in before.records && before.records[id].nextAttemptAt > before.now
    && !before.PhaseOf(i).Working? && after.PhaseOf(i).Working? && after.PhaseOf(i).id == id
  }

  // Two instances poll the same record at time 0; the first fails and puts it off; the second claims it at once.

  const BOTH := Candidate("r", 0)
  const UNTRIED := Record(0, 0, None, None, None, None)
  const LEASED_ONCE := UNTRIED.(lockedAt := Some(0), lockedBy := Some(0))
  const PUT_OFF := Record(1, 2000, None, None, None, None)
  const LEASED_EARLY := PUT_OFF.(lockedAt := Some(0), lockedBy := Some(1))

  ghost function Scene(r: Record, first: Phase, second: Phase, failed: bool): System {
    System(0, map["r" := r], map[0 := first, 1 := second], if failed then map["r" := 1] else map[],
           if failed then map["r" := Failure(0, 0)] else map[], map[])
  }

  function EarlyEvents(): seq<Event> {
    [Poll(0, [BOTH]), Poll(1, [BOTH]), Claim(0), Load(0), Send(0, false), SaveFailure(0), Claim(1)]
  }

  ghost function EarlyStates(): seq<System> {
    [Scene(UNTRIED, Idle, Idle, false),
     Scene(UNTRIED, Polling([BOTH]), Idle, false),
     Scene(UNTRIED, Polling([BOTH]), Polling([BOTH]), false),
     Scene(LEASED_ONCE, Working(Claimed, "r", 0, 0, []), Polling([BOTH]), false),
     Scene(LEASED_ONCE, Working(Loaded, "r", 0, 0, []), Polling([BOTH]), false),
     Scene(LEASED_ONCE, Working(Failed, "r", 0, 0, []), Polling([BOTH]), false),
     Scene(PUT_OFF, Polling([]), Polling([BOTH]), true),
     Scene(LEASED_EARLY, Polling([]), Working(Claimed, "r", 0, 0, []), true)]
  }

  ghost predicate StepsTo(k: nat)
    requires k < 7
  {
    Enabled(EarlyStates()[k], EarlyEvents()[k]) && EarlyStates()[k + 1] == Next(EarlyStates()[k], EarlyEvents()[k])
  }

  lemma FirstPolls()
    ensures StepsTo(0)
  {
  }

  lemma SecondPolls()
    ensures StepsTo(1)
  {
  }

  lemma FirstClaims()
    ensures StepsTo(2) && StepsTo(3)
  {
    assert [BOTH][1..] == [];
  }

  lemma FirstFails()
    ensures StepsTo(4) && StepsTo(5)
  {
    assert AfterFailure(LEASED_ONCE, 1, 0) == PUT_OFF by { assert PowerOfTwo(1) == 2 * PowerOfTwo(0); }
  }

  lemma SecondClaims()
    ensures StepsTo(6)
  {
    assert [BOTH][1..] == [];
  }

  /** The claim does not look at the time of the next attempt again, so it can come before it. */
  lemma EarlyClaimHappens()
    ensures exists states, events :: IsRun(states, events) && Sound(states[0]) && EndsInEarlyClaim(states, 1, "r")
  {
    FirstPolls();
    SecondPolls();
    FirstClaims();
    FirstFails();
    SecondClaims();
    hide Next, Enabled;
    assert IsRun(EarlyStates(), EarlyEvents()) && Sound(EarlyStates()[0]) && EndsInEarlyClaim(EarlyStates(), 1, "r");
  }
}
