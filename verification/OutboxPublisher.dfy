/**
  One publisher instance (analytics-outbox.publisher.ts, publishReady and publish), in a call that no other instance
  interrupts. The ghost system follows its database calls and sends as steps of the interleaved machine, so what is
  proved about runs of that machine holds of this code.
 */
module OutboxPublishers {
  import opened Outcomes
  import opened Numbers
  import opened Outbox
  import opened OutboxRecords

  /** The events are enabled one after the other and lead from s to t. */
  ghost predicate Leads(s: System, events: seq<Event>, t: System) {
    if events == [] then s == t
    else
      var last := |events| - 1;
      exists u :: Leads(s, events[..last], u) && Enabled(u, events[last]) && t == Next(u, events[last])
  }

  lemma OneMoreStep(s: System, events: seq<Event>, u: System, event: Event)
    requires Leads(s, events, u) && Enabled(u, event)
    ensures Leads(s, events + [event], Next(u, event))
  {
    assert (events + [event])[..|events|] == events;
  }

  /** What leads from one system to another is a run of the machine. */
  lemma {:induction false} LeadsIsRun(s: System, events: seq<Event>, t: System) returns (states: seq<System>)
    requires Leads(s, events, t)
    ensures IsRun(states, events) && states[0] == s && states[|events|] == t
  {
    if events == [] {
      states := [s];
    } else {
      var last := |events| - 1;
      var u :| Leads(s, events[..last], u) && Enabled(u, events[last]) && t == Next(u, events[last]);
      var before := LeadsIsRun(s, events[..last], u);
      states := before + [t];
      forall k | 0 <= k < |events|
        ensures Enabled(states[k], events[k]) && states[k + 1] == Next(states[k], events[k])
      {
        if k < last { assert events[..last][k] == events[k]; }
      }
    }
  }

  /** A record after one attempt: published, or its failure counted and its next attempt or its death set. */
  function Attempted(r: Record, ok: bool, now: Time): Record {
    if ok then r.(publishedAt := Some(now), lockedAt := None, lockedBy := None)
    else AfterFailure(r, r.attempts + 1, now)
  }

  /** Which of the calls about one record succeed; the others throw. */
  datatype Fate = Fate(claimed: bool, loaded: bool, sent: bool, saved: bool, failureSaved: bool) {

    /** An exception that publish does not catch ends the whole tick. */
    predicate EndsTick() {
      !claimed || !loaded || (!(sent && saved) && !failureSaved)
    }
  }

  /** What its turn does to a ready record: nothing, a lease that stays, a publication, or a failure on the books. */
  predicate TurnTaken(r: Record, after: Record, fate: Fate, instance: Instance, now: Time) {
    if !fate.claimed then after == r
    else if fate.loaded && fate.sent && fate.saved then IsPublished(r, after, now)
    else if fate.loaded && fate.failureSaved then HasFailed(r, after, now)
    else IsLeased(r, after, instance, now)
  }

  // ---------- The machine's steps, as one instance takes them

  predicate Holds(s: System, i: Instance, id: Id, stage: Stage) {
    && AtStage(s, i, stage) && s.PhaseOf(i).id == id
    && (stage != Stage.Claimed ==> s.PhaseOf(i).attempts == s.records[id].attempts)
  }

  lemma PollStep(s: System, i: Instance, todo: seq<Candidate>)
    requires s.PhaseOf(i).Idle? && IsPolled(s, todo)
    ensures Enabled(s, Poll(i, todo)) && Next(s, Poll(i, todo)) == s.WithPhase(i, Polling(todo))
  {
  }

  lemma StopStep(s: System, i: Instance)
    ensures Enabled(s, Die(i)) && Next(s, Die(i)) == s.WithPhase(i, Idle)
  {
  }

  lemma DoneStep(s: System, i: Instance)
    requires s.PhaseOf(i) == Polling([])
    ensures Enabled(s, Event.Claim(i)) && Next(s, Event.Claim(i)) == s.WithPhase(i, Idle)
  {
  }

  lemma LoadStep(s: System, i: Instance, id: Id)
    requires Holds(s, i, id, Stage.Claimed)
    ensures Enabled(s, Load(i))
    ensures var t := Next(s, Load(i));
      Holds(t, i, id, Loaded) && t.records == s.records && t.now == s.now && t.PhaseOf(i).todo == s.PhaseOf(i).todo
  {
  }

  lemma SendStep(s: System, i: Instance, id: Id, sent: bool)
    requires Holds(s, i, id, Loaded)
    ensures Enabled(s, Send(i, sent))
    ensures var t := Next(s, Send(i, sent));
      Holds(t, i, id, if sent then Sent else Failed) && t.records == s.records && t.now == s.now
      && t.PhaseOf(i).todo == s.PhaseOf(i).todo
  {
  }

  lemma SuccessStep(s: System, i: Instance, id: Id, saved: bool)
    requires Holds(s, i, id, Sent)
    ensures Enabled(s, SaveSuccess(i, saved))
    ensures var t := Next(s, SaveSuccess(i, saved));
      && t.now == s.now
      && if saved
         then
           && t.records == s.records[id := Attempted(s.records[id], true, s.now)]
           && t.PhaseOf(i) == Polling(s.PhaseOf(i).todo)
         else Holds(t, i, id, Failed) && t.records == s.records && t.PhaseOf(i).todo == s.PhaseOf(i).todo
  {
  }

  lemma FailureStep(s: System, i: Instance, id: Id)
    requires Holds(s, i, id, Failed)
    ensures Enabled(s, SaveFailure(i))
    ensures var t := Next(s, SaveFailure(i));
      && t.now == s.now && t.records == s.records[id := Attempted(s.records[id], false, s.now)]
      && t.PhaseOf(i) == Polling(s.PhaseOf(i).todo)
  {
  }

  class AnalyticsOutboxPublisher {
    const instanceId: Instance
    var running: bool
    var records: map<Id, Record>
    ghost var system: System
    ghost var events: seq<Event>
    ghost const start: System

    constructor (instanceId: Instance, records: map<Id, Record>, ghost system: System)
      requires system.records == records && system.PhaseOf(instanceId).Idle?
      ensures Valid() && !running && this.system == system && this.instanceId == instanceId && this.records == records
    {
      this.instanceId, this.records, running := instanceId, records, false;
      this.system, events, start := system, [], system;
    }

    /** The rows are those of the system, which the events so far have led to. */
    ghost predicate Valid()
      reads this
    {
      && system.records == records && Leads(start, events, system)
      && (running <==> !system.PhaseOf(instanceId).Idle?)
    }

    ghost method Take(event: Event)
      requires Leads(start, events, system) && Enabled(system, event)
      modifies this`system, this`events
      ensures system == Next(old(system), event) && events == old(events) + [event] && Leads(start, events, system)
    {
      OneMoreStep(start, events, system, event);
      system, events := Next(system, event), events + [event];
    }

    /** The conditional update that takes the lease. */
    method Claim(id: Id, now: Time, ghost todo: seq<Candidate>) returns (count: nat)
      requires Valid() && system.now == now && id in records
      requires system.PhaseOf(instanceId) == Polling(todo) && todo != [] && todo[0].id == id
      modifies this`records, this`system, this`events
      ensures Valid() && system.now == now
      ensures count == if CanBeLeased(old(records)[id], now) then 1 else 0
      ensures count == 1 ==>
        && id in records && records == old(records)[id := records[id]]
        && IsLeased(old(records)[id], records[id], instanceId, now)
      ensures count == 0 ==> records == old(records)
      ensures system.PhaseOf(instanceId) ==
        if count == 1 then Working(Stage.Claimed, id, now, 0, todo[1..]) else Polling(todo[1..])
    {
      ClaimableMeans(records[id], now);
      Take(Event.Claim(instanceId));
      var r := records[id];
      if r.publishedAt.None? && r.deadLetteredAt.None? && (r.lockedAt.None? || r.lockedAt.value < now - LEASE) {
        records := records[id := r.(lockedAt := Some(now), lockedBy := Some(instanceId))];
        return 1;
      }
      return 0;
    }

    /** Sends a claimed record and records what came of it; false when an exception leaves it leased. */
    method Publish(id: Id, now: Time, fate: Fate) returns (ok: bool)
      requires Valid() && system.now == now && id in records && fate.claimed
      requires system.PhaseOf(instanceId).Working? && system.PhaseOf(instanceId).stage.Claimed?
      requires system.PhaseOf(instanceId).id == id
      modifies this`records, this`system, this`events
      ensures Valid() && system.now == now && ok == !fate.EndsTick()
      ensures ok ==> id in records && records == old(records)[id := records[id]]
      ensures ok && fate.sent && fate.saved ==> IsPublished(old(records)[id], records[id], now)
      ensures ok && !(fate.sent && fate.saved) ==> HasFailed(old(records)[id], records[id], now)
      ensures !ok ==> records == old(records)
      ensures ok ==> system.PhaseOf(instanceId) == Polling(old(system).PhaseOf(instanceId).todo)
    {
      hide Leads, Next, Enabled, RetryDelay, HasFailed;
      FailureMeans(records[id], now);
      if !fate.loaded {
        return false;
      }
      var record := records[id];
      Follow(id, now, fate);
      if fate.sent && fate.saved {
        records := records[id := record.(publishedAt := Some(now), lockedAt := None, lockedBy := None)];
      } else {
        if !fate.failureSaved {
          return false;
        }
        var attempts := record.attempts + 1;
        var unlocked := record.(attempts := attempts, lockedAt := None, lockedBy := None);
        var delay := RetryDelay(attempts);
        records := records[id := if attempts >= 10 then unlocked.(deadLetteredAt := Some(now))
                                 else unlocked.(nextAttemptAt := now + delay)];
      }
      return true;
    }

    /** The steps of one publish: load, send, save what came of it. */
    ghost method Follow(id: Id, now: Time, fate: Fate)
      requires Leads(start, events, system) && Holds(system, instanceId, id, Stage.Claimed) && system.now == now
      requires fate.claimed && fate.loaded
      modifies this`system, this`events
      ensures Leads(start, events, system) && system.now == now
      ensures fate.EndsTick() ==> system.records == old(system).records && !system.PhaseOf(instanceId).Idle?
      ensures !fate.EndsTick() ==>
        && system.records == old(system).records[id := Attempted(old(system).records[id], fate.sent && fate.saved, now)]
        && system.PhaseOf(instanceId) == Polling(old(system).PhaseOf(instanceId).todo)
    {
      hide Leads, Next, Enabled, Attempted;
      LoadStep(system, instanceId, id);
      Take(Load(instanceId));
      SendStep(system, instanceId, id, fate.sent);
      Take(Send(instanceId, fate.sent));
      if fate.sent {
        SuccessStep(system, instanceId, id, fate.saved);
        Take(SaveSuccess(instanceId, fate.saved));
      }
      if !(fate.sent && fate.saved) && fate.failureSaved {
        FailureStep(system, instanceId, id);
        Take(SaveFailure(instanceId));
      }
    }

    /** The turn of one polled record; false when an exception ends the tick. */
    method Attempt(id: Id, now: Time, ghost todo: seq<Candidate>, fate: Fate) returns (ok: bool)
      requires Valid() && system.now == now && id in records && CanBeLeased(records[id], now)
      requires system.PhaseOf(instanceId) == Polling(todo) && todo != [] && todo[0].id == id
      modifies this`records, this`system, this`events
      ensures Valid() && system.now == now && ok == !fate.EndsTick()
      ensures ok ==> system.PhaseOf(instanceId) == Polling(todo[1..])
      ensures id in records && records == old(records)[id := records[id]]
      ensures TurnTaken(old(records)[id], records[id], fate, instanceId, now)
    {
      hide Leads, Next, Enabled, CanBeLeased;
      if !fate.claimed {
        return false;
      }
      var count := Claim(id, now, todo);
      ok := true;
      if count == 1 {
        ok := Publish(id, now, fate);
      }
    }

    /** The end of a tick, however it comes. */
    method Finish(ghost event: Event)
      requires Valid() && Enabled(system, event) && Next(system, event) == system.WithPhase(instanceId, Idle)
      modifies this`running, this`system, this`events
      ensures Valid() && !running
    {
      hide Leads, Next, Enabled;
      Take(event);
      running := false;
    }

    /**
      One timer tick. `candidates` is what the query finds. They have their turns in order, once each, up to the first
      whose calls end the tick; no other record is touched, and the instance is ready for the next tick either way.
      A tick that finds the publisher running does nothing.
     */
    method PublishReady(now: Time, candidates: seq<Candidate>, fates: Id -> Fate) returns (completed: nat)
      requires Valid() && system.now == now && IsPolled(system, candidates)
      modifies this
      ensures Valid() && running == old(running) && records.Keys == old(records).Keys
      ensures old(running) ==> records == old(records) && system == old(system)
      ensures !old(running) ==>
        && completed <= |candidates|
        && (forall k :: 0 <= k < completed ==> !fates(candidates[k].id).EndsTick())
        && (completed < |candidates| ==> fates(candidates[completed].id).EndsTick())
        && TurnsTaken(old(records), records, candidates, Min(completed + 1, |candidates|), fates, instanceId, now)
    {
      hide Leads, Next, Enabled, TurnTaken, CanBeLeased, Fate.EndsTick, TurnsTaken, DistinctIds;
      if running {
        return 0;
      }
      PolledMeans(system, candidates);
      PollStep(system, instanceId, candidates);
      running := true;
      Take(Poll(instanceId, candidates));
      assert candidates[0..] == candidates;
      NoTurns(records, candidates, fates, instanceId, now);
      for k := 0 to |candidates|
        invariant Valid() && running && system.now == now
        invariant system.PhaseOf(instanceId) == Polling(candidates[k..])
        invariant TurnsTaken(old(records), records, candidates, k, fates, instanceId, now)
        invariant forall j :: 0 <= j < k ==> !fates(candidates[j].id).EndsTick()
      {
        var id := candidates[k].id;
        assert candidates[k..][1..] == candidates[k + 1..];
        ghost var before := records;
        StillUntouched(old(records), before, candidates, k, fates, instanceId, now);
        var ok := Attempt(id, now, candidates[k..], fates(id));
        NextTurn(old(records), before, candidates, k, records[id], fates, instanceId, now);
        StillUntouched(old(records), records, candidates, k + 1, fates, instanceId, now);
        if !ok {
          StopStep(system, instanceId);
          Finish(Die(instanceId));
          return k;
        }
      }
      StillUntouched(old(records), records, candidates, |candidates|, fates, instanceId, now);
      DoneStep(system, instanceId);
      Finish(Event.Claim(instanceId));
      return |candidates|;
    }
  }

  /** The first n candidates have had their turns, and nothing else has changed. */
  ghost predicate TurnsTaken(before: map<Id, Record>, after: map<Id, Record>, todo: seq<Candidate>, n: int,
                             fates: Id -> Fate, instance: Instance, now: Time)
  {
    && 0 <= n <= |todo| && after.Keys == before.Keys
    && (forall k :: 0 <= k < n ==>
          && todo[k].id in before
          && TurnTaken(before[todo[k].id], after[todo[k].id], fates(todo[k].id), instance, now))
    && (forall id :: id in before && (forall k :: 0 <= k < n ==> todo[k].id != id) ==> after[id] == before[id])
  }

  lemma NoTurns(records: map<Id, Record>, todo: seq<Candidate>, fates: Id -> Fate, instance: Instance, now: Time)
    ensures TurnsTaken(records, records, todo, 0, fates, instance, now)
  {
  }

  lemma StillUntouched(before: map<Id, Record>, after: map<Id, Record>, todo: seq<Candidate>, n: nat, fates: Id -> Fate,
                       instance: Instance, now: Time)
    requires n <= |todo| && DistinctIds(todo) && TurnsTaken(before, after, todo, n, fates, instance, now)
    ensures after.Keys == before.Keys
    ensures n < |todo| && todo[n].id in before ==> after[todo[n].id] == before[todo[n].id]
  {
  }

  lemma NextTurn(before: map<Id, Record>, after: map<Id, Record>, todo: seq<Candidate>, n: nat, record: Record,
                 fates: Id -> Fate, instance: Instance, now: Time)
    requires n < |todo| && DistinctIds(todo) && TurnsTaken(before, after, todo, n, fates, instance, now)
    requires todo[n].id in before && todo[n].id in after
    requires TurnTaken(after[todo[n].id], record, fates(todo[n].id), instance, now)
    ensures TurnsTaken(before, after[todo[n].id := record], todo, n + 1, fates, instance, now)
  {
    hide TurnTaken;
    StillUntouched(before, after, todo, n, fates, instance, now);
  }
}
