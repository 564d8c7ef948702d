/**
  The last-writer-wins projection of access rights (event-role.handler.ts): each message carries the whole row
  of one (event, user) and the time it occurred; a message older than the row is skipped.
 */
module AccessProjections {
  import opened Outcomes

  datatype Key = Key(event: string, user: string)

  datatype Message = Message(key: Key, permissions: seq<string>, roles: seq<string>, occurredAt: int)

  datatype Row = Row(permissions: seq<string>, roles: seq<string>, occurredAt: Option<int>)

  type Projection = map<Key, Row>

  function RowAt(rows: Projection, k: Key): Option<Row> {
    if k in rows then Some(rows[k]) else None
  }

  /** A row without a time is never newer than a message. */
  predicate Stale(existing: Option<Row>, m: Message) {
    existing.Some? && existing.value.occurredAt.Some? && m.occurredAt < existing.value.occurredAt.value
  }

  function Written(m: Message): Row {
    Row(m.permissions, m.roles, Some(m.occurredAt))
  }

  /** The row holds what the message says, and when. */
  predicate Carries(row: Row, m: Message) {
    row.permissions == m.permissions && row.roles == m.roles && row.occurredAt == Some(m.occurredAt)
  }

  function Deliver(rows: Projection, m: Message): Projection {
    if Stale(RowAt(rows, m.key), m) then rows else rows[m.key := Written(m)]
  }

  function DeliverAll(rows: Projection, ms: seq<Message>): Projection {
    if ms == [] then rows else Deliver(DeliverAll(rows, ms[..|ms| - 1]), ms[|ms| - 1])
  }

  class EventRoleHandler {
    var projection: Projection

    constructor (rows: Projection)
      ensures projection == rows
    {
      projection := rows;
    }

    /** One message handled without another between its read and its write. */
    method HandleUserAccessChanged(payload: Message)
      modifies this
      ensures projection == Deliver(old(projection), payload)
      ensures var k := payload.key;
        if k in old(projection) && old(projection)[k].occurredAt.Some?
           && payload.occurredAt < old(projection)[k].occurredAt.value
        then projection == old(projection)
        else
          && projection.Keys == old(projection).Keys + {k} && Carries(projection[k], payload)
          && forall other :: other in old(projection) && other != k ==> projection[other] == old(projection)[other]
    {
      if payload.key in projection {
        var existing := projection[payload.key];
        if existing.occurredAt.Some? && payload.occurredAt < existing.occurredAt.value {
          return;
        }
      }
      projection := projection[payload.key := Written(payload)];
    }
  }

  // ---------- What is left in a row

  /** The last delivered among the messages of one key with the greatest time. */
  predicate Newest(ms: seq<Message>, i: nat) {
    i < |ms| && forall j :: 0 <= j < |ms| && ms[j].key == ms[i].key ==>
      ms[j].occurredAt < ms[i].occurredAt || (ms[j].occurredAt == ms[i].occurredAt && j <= i)
  }

  /** Every message about a key is older than the row it found at the start. */
  predicate AllStale(rows: Projection, ms: seq<Message>, k: Key) {
    forall j :: 0 <= j < |ms| && ms[j].key == k ==> Stale(RowAt(rows, k), ms[j])
  }

  lemma {:induction false} StaleChangeNothing(rows: Projection, ms: seq<Message>, k: Key)
    requires AllStale(rows, ms, k)
    ensures RowAt(DeliverAll(rows, ms), k) == RowAt(rows, k)
  {
    if ms != [] {
      var front, last := ms[..|ms| - 1], ms[|ms| - 1];
      forall j | 0 <= j < |front| && front[j].key == k ensures Stale(RowAt(rows, k), front[j]) {
        assert front[j] == ms[j];
      }
      StaleChangeNothing(rows, front, k);
    }
  }

  /** Whatever came before and after it, the newest message of a key is what the row holds. */
  lemma {:induction false} NewestIsHeld(rows: Projection, ms: seq<Message>, i: nat)
    requires Newest(ms, i) && !Stale(RowAt(rows, ms[i].key), ms[i])
    ensures RowAt(DeliverAll(rows, ms), ms[i].key) == Some(Written(ms[i]))
    ensures ms[i].key in DeliverAll(rows, ms) && Carries(DeliverAll(rows, ms)[ms[i].key], ms[i])
  {
    var n := |ms| - 1;
    var front, k := ms[..n], ms[i].key;
    if i < n {
      forall j | 0 <= j < |front| && front[j].key == k
        ensures front[j].occurredAt < front[i].occurredAt || (front[j].occurredAt == front[i].occurredAt && j <= i)
      {
        assert front[j] == ms[j];
      }
      NewestIsHeld(rows, front, i);
    } else {
      NotNewer(rows, front, ms[i]);
    }
  }

  /** A row is never newer than both where it started and every message about it. */
  lemma {:induction false} NotNewer(rows: Projection, ms: seq<Message>, m: Message)
    requires !Stale(RowAt(rows, m.key), m)
    requires forall j :: 0 <= j < |ms| && ms[j].key == m.key ==> ms[j].occurredAt <= m.occurredAt
    ensures !Stale(RowAt(DeliverAll(rows, ms), m.key), m)
  {
    if ms != [] {
      var front := ms[..|ms| - 1];
      forall j | 0 <= j < |front| && front[j].key == m.key ensures front[j].occurredAt <= m.occurredAt {
        assert front[j] == ms[j];
      }
      NotNewer(rows, front, m);
    }
  }

  /** A key with any message has a newest one. */
  lemma {:induction false} NewestExists(ms: seq<Message>, k: Key) returns (i: nat)
    requires exists j :: 0 <= j < |ms| && ms[j].key == k
    ensures Newest(ms, i) && ms[i].key == k
  {
    var n := |ms| - 1;
    var front := ms[..n];
    if j :| 0 <= j < n && ms[j].key == k {
      assert front[j].key == k;
      i := NewestExists(front, k);
      assert forall q :: 0 <= q < n ==> front[q] == ms[q];
      if ms[n].key == k && ms[n].occurredAt >= ms[i].occurredAt { i := n; }
    } else {
      i := n;
    }
  }

  /** The row after any deliveries: as it was when all are stale, and the newest message when one is not. */
  lemma RowIsDecided(rows: Projection, ms: seq<Message>, k: Key)
    ensures
      if AllStale(rows, ms, k) then RowAt(DeliverAll(rows, ms), k) == RowAt(rows, k)
      else exists i: nat :: Newest(ms, i) && ms[i].key == k && k in DeliverAll(rows, ms)
                            && Carries(DeliverAll(rows, ms)[k], ms[i])
  {
    if AllStale(rows, ms, k) {
      StaleChangeNothing(rows, ms, k);
    } else {
      var i := NewestExists(ms, k);
      NewestIsHeld(rows, ms, i);
    }
  }

  // ---------- Orders and duplicates

  /** No two messages of one key have the same greatest time and a different content, unless the row is newer still. */
  predicate Agree(rows: Projection, ms: seq<Message>) {
    forall i, j :: 0 <= i < |ms| && 0 <= j < |ms| && Tied(rows, ms, i, j) ==> ms[i] == ms[j]
  }

  predicate Tied(rows: Projection, ms: seq<Message>, i: nat, j: nat)
    requires i < |ms| && j < |ms|
  {
    ms[i].key == ms[j].key && Top(ms, i) && Top(ms, j) && !Stale(RowAt(rows, ms[i].key), ms[i])
  }

  predicate Top(ms: seq<Message>, i: nat)
    requires i < |ms|
  {
    forall q :: 0 <= q < |ms| && ms[q].key == ms[i].key ==> ms[q].occurredAt <= ms[i].occurredAt
  }

  predicate SameMessages(ms: seq<Message>, ns: seq<Message>) {
    (forall m :: m in ms ==> m in ns) && (forall m :: m in ns ==> m in ms)
  }

  lemma NewestIsTop(ms: seq<Message>, ns: seq<Message>, i: nat) returns (j: nat)
    requires SameMessages(ms, ns) && Newest(ns, i)
    ensures j < |ms| && ms[j] == ns[i] && Top(ms, j)
  {
    assert ns[i] in ms;
    j :| 0 <= j < |ms| && ms[j] == ns[i];
    forall q | 0 <= q < |ms| && ms[q].key == ms[j].key ensures ms[q].occurredAt <= ms[j].occurredAt {
      assert ms[q] in ns;
      var p :| 0 <= p < |ns| && ns[p] == ms[q];
    }
  }

  lemma RowsConverge(rows: Projection, ms: seq<Message>, ns: seq<Message>, k: Key)
    requires SameMessages(ms, ns) && Agree(rows, ms)
    ensures RowAt(DeliverAll(rows, ms), k) == RowAt(DeliverAll(rows, ns), k)
  {
    hide DeliverAll, Agree, Newest;
    RowIsDecided(rows, ms, k);
    RowIsDecided(rows, ns, k);
    StaleAlike(rows, ms, ns, k);
    if !AllStale(rows, ms, k) {
      var i := FreshNewest(rows, ms, k);
      var j := FreshNewest(rows, ns, k);
      SameReflexive(ms);
      var p := NewestIsTop(ms, ms, i);
      var q := NewestIsTop(ms, ns, j);
      Settled(rows, ms, p, q);
    }
  }

  lemma Settled(rows: Projection, ms: seq<Message>, p: nat, q: nat)
    requires Agree(rows, ms) && p < |ms| && q < |ms| && Tied(rows, ms, p, q)
    ensures ms[p] == ms[q]
  {
  }

  lemma SameReflexive(ms: seq<Message>)
    ensures SameMessages(ms, ms)
  {
  }

  lemma FreshNewest(rows: Projection, ms: seq<Message>, k: Key) returns (i: nat)
    requires !AllStale(rows, ms, k)
    ensures i < |ms| && Newest(ms, i) && ms[i].key == k && !Stale(RowAt(rows, k), ms[i])
    ensures RowAt(DeliverAll(rows, ms), k) == Some(Written(ms[i]))
  {
    i := NewestExists(ms, k);
    NewestIsHeld(rows, ms, i);
  }

  lemma StaleAlike(rows: Projection, ms: seq<Message>, ns: seq<Message>, k: Key)
    requires SameMessages(ms, ns)
    ensures AllStale(rows, ms, k) == AllStale(rows, ns, k)
  {
    if AllStale(rows, ms, k) { StaleToo(rows, ms, ns, k); }
    if AllStale(rows, ns, k) { StaleToo(rows, ns, ms, k); }
  }

  lemma StaleToo(rows: Projection, ms: seq<Message>, ns: seq<Message>, k: Key)
    requires SameMessages(ms, ns) && AllStale(rows, ms, k)
    ensures AllStale(rows, ns, k)
  {
    forall j | 0 <= j < |ns| && ns[j].key == k ensures Stale(RowAt(rows, k), ns[j]) {
      assert ns[j] in ms;
    }
  }

  /** The same messages in any order and with any repetition leave the same projection, when the newest ones agree. */
  lemma OrdersConverge(rows: Projection, ms: seq<Message>, ns: seq<Message>)
    requires SameMessages(ms, ns) && Agree(rows, ms)
    ensures DeliverAll(rows, ms) == DeliverAll(rows, ns)
  {
    var a, b := DeliverAll(rows, ms), DeliverAll(rows, ns);
    forall k ensures RowAt(a, k) == RowAt(b, k) { RowsConverge(rows, ms, ns, k); }
    forall k ensures (k in a <==> k in b) && (k in a ==> a[k] == b[k]) {
      assert RowAt(a, k) == RowAt(b, k);
    }
  }

  lemma {:induction false} DistinctTimesAgree(rows: Projection, ms: seq<Message>)
    requires forall i, j :: 0 <= i < j < |ms| && ms[i].key == ms[j].key ==> ms[i].occurredAt != ms[j].occurredAt
    ensures Agree(rows, ms)
  {
  }

  /** Delivering one of the newest last. */
  function MovedLast(ms: seq<Message>, i: nat): seq<Message>
    requires i < |ms|
  {
    ms[..i] + ms[i + 1..] + [ms[i]]
  }

  lemma MovedLastIsHeld(rows: Projection, ms: seq<Message>, i: nat)
    requires i < |ms| && Top(ms, i) && !Stale(RowAt(rows, ms[i].key), ms[i])
    ensures multiset(MovedLast(ms, i)) == multiset(ms)
    ensures RowAt(DeliverAll(rows, MovedLast(ms, i)), ms[i].key) == Some(Written(ms[i]))
  {
    var ns := MovedLast(ms, i);
    assert ms == ms[..i] + [ms[i]] + ms[i + 1..];
    assert forall q :: 0 <= q < |ns| ==> ns[q] == ms[if q < i then q else if q < |ms| - 1 then q + 1 else i];
    NewestIsHeld(rows, ns, |ms| - 1);
  }

  /** Two newest messages of one time with different contents: their order alone decides the row. */
  lemma {:induction false} TiesDiverge(rows: Projection, ms: seq<Message>, i: nat, j: nat)
    requires i < |ms| && j < |ms| && Tied(rows, ms, i, j) && ms[i] != ms[j]
    ensures multiset(MovedLast(ms, i)) == multiset(MovedLast(ms, j)) == multiset(ms)
    ensures DeliverAll(rows, MovedLast(ms, i)) != DeliverAll(rows, MovedLast(ms, j))
  {
    MovedLastIsHeld(rows, ms, i);
    MovedLastIsHeld(rows, ms, j);
  }

  /** All orders converge exactly when the newest messages of each key agree. */
  lemma ConvergesExactlyWhen(rows: Projection, ms: seq<Message>)
    ensures Agree(rows, ms) <==>
      forall ns: seq<Message> :: multiset(ns) == multiset(ms) ==> DeliverAll(rows, ns) == DeliverAll(rows, ms)
  {
    if Agree(rows, ms) {
      forall ns: seq<Message> | multiset(ns) == multiset(ms) ensures DeliverAll(rows, ns) == DeliverAll(rows, ms) {
        SameElements(ms, ns);
        OrdersConverge(rows, ms, ns);
      }
    } else {
      var i, j :| 0 <= i < |ms| && 0 <= j < |ms| && Tied(rows, ms, i, j) && ms[i] != ms[j];
      TiesDiverge(rows, ms, i, j);
    }
  }

  lemma SameElements(ms: seq<Message>, ns: seq<Message>)
    requires multiset(ns) == multiset(ms)
    ensures SameMessages(ms, ns)
  {
    forall m ensures m in ms <==> m in ns {
      assert m in ms <==> m in multiset(ms);
      assert m in ns <==> m in multiset(ns);
    }
  }

  // ---------- Handlers that overlap on one row

  /** The two database calls of the handler of message i: the read that decides, and the write if it passed. */
  datatype Call = Read(i: nat) | Write(i: nat)

  /** The row, and the handlers that have read it, found it not newer, and have not written yet. */
  datatype State = State(row: Option<Row>, passed: set<nat>)

  function Step(ms: seq<Message>, s: State, c: Call): State
    requires c.i < |ms|
  {
    match c
    case Read(i) => s.(passed := if Stale(s.row, ms[i]) then s.passed - {i} else s.passed + {i})
    case Write(i) => if i in s.passed then State(Some(Written(ms[i])), s.passed - {i}) else s
  }

  predicate InRange(ms: seq<Message>, calls: seq<Call>) {
    forall q :: 0 <= q < |calls| ==> calls[q].i < |ms|
  }

  function Run(ms: seq<Message>, s: State, calls: seq<Call>): State
    requires InRange(ms, calls)
    decreases |calls|
  {
    if calls == [] then s else Run(ms, Step(ms, s, calls[0]), calls[1..])
  }

  /** A delivery of the same content at the same time as message n. */
  predicate IsCopy(ms: seq<Message>, n: nat, i: nat) {
    n < |ms| && i < |ms| && Written(ms[i]) == Written(ms[n])
  }

  /** Message n is later than all the others, its own copies apart. */
  predicate Latest(ms: seq<Message>, n: nat) {
    n < |ms| && forall j :: 0 <= j < |ms| ==> ms[j].occurredAt < ms[n].occurredAt || IsCopy(ms, n, j)
  }

  /** Some handler that passed its read before writes now. */
  predicate Overtaken(s: State, calls: seq<Call>) {
    exists q :: 0 <= q < |calls| && calls[q].Write? && calls[q].i in s.passed
  }

  /** No copy of the latest message is written any more. */
  predicate NoCopyWrites(ms: seq<Message>, calls: seq<Call>, n: nat) {
    forall q :: 0 <= q < |calls| && calls[q].Write? ==> !IsCopy(ms, n, calls[q].i)
  }

  /** No handler of an older message that waits for its write reads again. */
  predicate NoRereads(ms: seq<Message>, s: State, calls: seq<Call>, n: nat) {
    forall q :: 0 <= q < |calls| && calls[q].Read? && calls[q].i in s.passed ==> IsCopy(ms, n, calls[q].i)
  }

  /** Once overwritten, the latest message does not come back unless a copy of it is written. */
  lemma {:induction false} LostForGood(ms: seq<Message>, s: State, calls: seq<Call>, n: nat)
    requires Latest(ms, n) && InRange(ms, calls) && NoCopyWrites(ms, calls, n) && s.row != Some(Written(ms[n]))
    ensures Run(ms, s, calls).row != Some(Written(ms[n]))
    decreases |calls|
  {
    if calls != [] {
      assert forall q :: 0 <= q < |calls[1..]| ==> calls[1..][q] == calls[q + 1];
      LostForGood(ms, Step(ms, s, calls[0]), calls[1..], n);
    }
  }

  /** Handlers of copies do not matter to whether the row is overtaken, and a first call that does not write neither. */
  lemma OvertakenLater(ms: seq<Message>, s: State, t: State, calls: seq<Call>, n: nat)
    requires calls != [] && NoCopyWrites(ms, calls, n)
    requires forall i: nat :: i < |ms| && !IsCopy(ms, n, i) ==> (i in s.passed <==> i in t.passed)
    requires InRange(ms, calls) && (calls[0].Write? ==> calls[0].i !in s.passed)
    ensures Overtaken(s, calls) <==> Overtaken(t, calls[1..])
  {
    var rest := calls[1..];
    if Overtaken(s, calls) {
      var q :| 0 <= q < |calls| && calls[q].Write? && calls[q].i in s.passed;
      assert rest[q - 1] == calls[q];
    }
    if Overtaken(t, rest) {
      var q :| 0 <= q < |rest| && rest[q].Write? && rest[q].i in t.passed;
      assert calls[q + 1] == rest[q];
    }
  }

  lemma {:induction false} KeptUnlessOvertaken(ms: seq<Message>, s: State, calls: seq<Call>, n: nat)
    requires Latest(ms, n) && InRange(ms, calls) && s.row == Some(Written(ms[n]))
    requires NoCopyWrites(ms, calls, n) && NoRereads(ms, s, calls, n)
    ensures Run(ms, s, calls).row == Some(Written(ms[n])) <==> !Overtaken(s, calls)
    decreases |calls|
  {
    if calls != [] {
      var c, rest := calls[0], calls[1..];
      var t := Step(ms, s, c);
      assert forall q :: 0 <= q < |rest| ==> rest[q] == calls[q + 1];
      if c.Write? && c.i in s.passed {
        assert t.row == Some(Written(ms[c.i]));
        LostForGood(ms, t, rest, n);
      } else {
        KeptUnlessOvertaken(ms, t, rest, n);
        OvertakenLater(ms, s, t, calls, n);
      }
    }
  }

  /** What the handlers leave in place: the start or a message, and a handler in waiting has made its read. */
  lemma {:induction false} RunSoFar(ms: seq<Message>, s: State, calls: seq<Call>, n: nat)
    requires Latest(ms, n) && InRange(ms, calls) && !Stale(s.row, ms[n])
    ensures !Stale(Run(ms, s, calls).row, ms[n])
    ensures forall i :: i in Run(ms, s, calls).passed ==> i in s.passed || Read(i) in calls
    ensures Read(n) in calls && Write(n) !in calls ==> n in Run(ms, s, calls).passed
    ensures n in s.passed && Write(n) !in calls ==> n in Run(ms, s, calls).passed
    decreases |calls|
  {
    if calls != [] {
      RunSoFar(ms, Step(ms, s, calls[0]), calls[1..], n);
    }
  }

  lemma {:induction false} RunSplits(ms: seq<Message>, s: State, calls: seq<Call>, w: nat)
    requires InRange(ms, calls) && w <= |calls|
    ensures InRange(ms, calls[..w]) && InRange(ms, calls[w..])
    ensures Run(ms, s, calls) == Run(ms, Run(ms, s, calls[..w]), calls[w..])
    decreases |calls|
  {
    if w > 0 {
      assert calls[..w][1..] == calls[1..][..w - 1] && calls[w..] == calls[1..][w - 1..];
      RunSplits(ms, Step(ms, s, calls[0]), calls[1..], w - 1);
    } else {
      assert calls[..0] == [] && calls[0..] == calls;
    }
  }

  /**
    Overlapping handlers, each making its two calls once; w is the last write of the latest message or of a copy of it.
    The row ends at the latest message exactly when no handler that had passed its read before w writes after it.
   */
  lemma {:induction false} LatestIsKeptExactlyWhen(ms: seq<Message>, row: Option<Row>, calls: seq<Call>,
                                                   n: nat, r: nat, w: nat)
    requires Latest(ms, n) && !Stale(row, ms[n]) && InRange(ms, calls)
    requires forall p, q :: 0 <= p < q < |calls| ==> calls[p] != calls[q]
    requires r < w < |calls| && calls[r] == Read(n) && calls[w] == Write(n)
    requires NoCopyWrites(ms, calls[w + 1..], n)
    ensures Run(ms, State(row, {}), calls).row == Some(Written(ms[n])) <==>
      !Overtaken(Run(ms, State(row, {}), calls[..w]), calls[w + 1..])
  {
    var s0 := State(row, {});
    RunSplits(ms, s0, calls, w);
    var s := Run(ms, s0, calls[..w]);
    RunSoFar(ms, s0, calls[..w], n);
    assert calls[..w][r] == Read(n);
    assert calls[w..][1..] == calls[w + 1..];
    var t, rest := Step(ms, s, calls[w]), calls[w + 1..];
    forall q | 0 <= q < |rest| && rest[q].Read? ensures rest[q].i !in t.passed {
      assert rest[q] == calls[w + 1 + q];
      assert Read(rest[q].i) !in calls[..w];
    }
    KeptUnlessOvertaken(ms, t, rest, n);
    assert Overtaken(t, rest) <==> Overtaken(s, rest) by { SameOvertaken(s, t, rest, n, ms); }
  }

  lemma SameOvertaken(s: State, t: State, calls: seq<Call>, n: nat, ms: seq<Message>)
    requires n < |ms| && NoCopyWrites(ms, calls, n) && t.passed == s.passed - {n}
    ensures Overtaken(t, calls) <==> Overtaken(s, calls)
  {
    if Overtaken(s, calls) {
      var q :| 0 <= q < |calls| && calls[q].Write? && calls[q].i in s.passed;
      assert IsCopy(ms, n, n);
      assert calls[q].i in t.passed;
    }
  }

  /** Two handlers that both read before either writes can leave the older message in the row. */
  lemma OverlapLosesLatest()
    ensures var k := Key("e", "u");
      var ms := [Message(k, ["old"], [], 1), Message(k, ["new"], [], 2)];
      Run(ms, State(None, {}), [Read(0), Read(1), Write(1), Write(0)]).row == Some(Written(ms[0]))
      && RowAt(DeliverAll(map[], ms), k) == RowAt(DeliverAll(map[], [ms[1], ms[0]]), k) == Some(Written(ms[1]))
  {
    var k := Key("e", "u");
    var ms := [Message(k, ["old"], [], 1), Message(k, ["new"], [], 2)];
    var s0, calls := State(None, {}), [Read(0), Read(1), Write(1), Write(0)];
    var s2 := Step(ms, Step(ms, s0, calls[0]), calls[1]);
    var s3 := Step(ms, s2, calls[2]);
    assert calls[1..][1..] == calls[2..] && calls[2..][1..] == calls[3..];
    assert Run(ms, s3, calls[3..]) == Step(ms, s3, Write(0)) by { assert calls[3..][1..] == []; }
    assert Run(ms, s0, calls) == Run(ms, s2, calls[2..]) == Run(ms, s3, calls[3..]);
    NewestIsHeld(map[], ms, 1);
    NewestIsHeld(map[], [ms[1], ms[0]], 0);
  }
}
