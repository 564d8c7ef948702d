/** How one outbox row changes, in plain numbers: when it can be leased, and what each outcome writes. */
module OutboxRecords {
  import opened Outcomes
  import opened Numbers
  import opened Outbox

  /** Milliseconds from the n-th recorded failure to the next attempt, for n from 1 to 9. */
  const BACKOFF: seq<int> := [2000, 4000, 8000, 16000, 32000, 64000, 128000, 256000, 300000]

  /** Not published, not dead, and not leased within the last minute. */
  predicate CanBeLeased(r: Record, now: Time) {
    r.publishedAt == None && r.deadLetteredAt == None && (r.lockedAt.Some? ==> now - r.lockedAt.value > 60000)
  }

  predicate IsLeased(r: Record, after: Record, instance: Instance, now: Time) {
    after == Record(r.attempts, r.nextAttemptAt, Some(now), Some(instance), r.publishedAt, r.deadLetteredAt)
  }

  predicate IsPublished(r: Record, after: Record, now: Time) {
    after == Record(r.attempts, r.nextAttemptAt, None, None, Some(now), r.deadLetteredAt)
  }

  /** Up to the ninth failure the next attempt is put off; the tenth kills the record. */
  predicate HasFailed(r: Record, after: Record, now: Time) {
    if r.attempts < 9
    then after == Record(r.attempts + 1, now + BACKOFF[r.attempts], None, None, r.publishedAt, r.deadLetteredAt)
    else after == Record(r.attempts + 1, r.nextAttemptAt, None, None, r.publishedAt, Some(now))
  }

  // ---------- What the functions of the machine mean

  lemma ClaimableMeans(r: Record, now: Time)
    ensures r.Claimable(now) <==> CanBeLeased(r, now)
    ensures r.Ready(now) <==> CanBeLeased(r, now) && r.nextAttemptAt <= now
  {
  }

  /** A poll finds at most fifty rows, each once, that can be leased and are due, with their present attempts. */
  lemma PolledMeans(s: System, todo: seq<Candidate>)
    ensures IsPolled(s, todo) <==>
      && |todo| <= 50
      && (forall a, b :: 0 <= a < b < |todo| ==> todo[a].id != todo[b].id)
      && forall k :: 0 <= k < |todo| ==>
           && todo[k].id in s.records && CanBeLeased(s.records[todo[k].id], s.now)
           && s.records[todo[k].id].nextAttemptAt <= s.now && todo[k].attempts == s.records[todo[k].id].attempts
  {
  }

  /** The one assumption on time: the clock never runs on while a live publish is more than a minute old. */
  lemma TickMeans(s: System, to: Time)
    ensures Enabled(s, Tick(to)) <==>
      && s.now <= to
      && forall i :: i in s.phases && s.phases[i].Working? ==> to - s.phases[i].since <= 60000
  {
  }

  /** A second at first, then each delay is twice the one before, up to five minutes. */
  lemma DelayLaw(n: nat)
    ensures RetryDelay(0) == 1000
    ensures RetryDelay(n + 1) == if 2 * RetryDelay(n) < 300000 then 2 * RetryDelay(n) else 300000
  {
  }

  lemma DelaysAre(n: nat)
    requires 1 <= n <= 9
    ensures RetryDelay(n) == BACKOFF[n - 1]
  {
    for k := 0 to n
      invariant RetryDelay(k) == if k == 0 then 1000 else BACKOFF[k - 1]
    {
      DelayLaw(k);
    }
  }

  lemma FailureMeans(r: Record, now: Time)
    ensures HasFailed(r, AfterFailure(r, r.attempts + 1, now), now)
  {
    hide RetryDelay;
    if r.attempts < 9 { DelaysAre(r.attempts + 1); }
  }
}
