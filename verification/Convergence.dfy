/** Convergence at quiescence: in whatever order and however often the committed events of a
    row arrive, whatever local writes, acknowledgements and failed sends are interleaved, and
    wherever a crash makes the replay start again, the row ends up as the server has it. */
module Convergence {
  import opened Wrappers
  import opened ReconcileCore
  import opened RowMachine
  import opened KeyedStore
  import opened Guarantees
  import opened OrderIndependence

  /** The committed events of row `k` after state `start`, as the server orders them. */
  ghost predicate History(history: seq<ChangeEvent>, k: RowKey, start: Option<Record>) {
    && (start.Some? ==> !start.value.dirty && 0 <= start.value.version)
    && (forall i :: 0 <= i < |history| ==> history[i].rowKey == k && 0 <= history[i].version)
    && (forall i :: 0 <= i < |history| && start.Some? ==> start.value.version < history[i].version)
    && forall i, j :: 0 <= i < j < |history| ==> history[i].version < history[j].version
  }

  /** The row on the server once the whole history is committed. */
  function ServerRow(history: seq<ChangeEvent>, start: Option<Record>): Option<Record> {
    if history == [] then start else ServerRecord(history[|history| - 1], false)
  }

  /** Which events were delivered so far, and the position from which on the history has
      still to be replayed in order. */
  datatype Seen = Seen(at: nat, delivered: set<nat>)

  ghost predicate SeenOk(history: seq<ChangeEvent>, seen: Seen) {
    && seen.at <= |history|
    && (forall j :: j in seen.delivered ==> j < |history|)
    && (forall j: nat :: j < seen.at ==> j in seen.delivered)
  }

  /** What the environment may do to row `k`: every local write has its own key, which the
      server echoes exactly and with the same operation; an acknowledgement carries the
      version the write was committed at; the events of the history come in any order and
      any number of times. Other rows are unrestricted. */
  ghost predicate Allowed(history: seq<ChangeEvent>, k: RowKey, r: RowState, delivered: set<nat>, a: Action) {
    match a
    case Write(rowKey, op, _, _, _, key) =>
      rowKey == k ==>
        && (forall n :: n in r.queue ==> r.queue[n].key != Some(key))
        && (forall j: nat :: j in delivered && j < |history| ==> history[j].writeKey != Some(key))
        && (forall j :: 0 <= j < |history| && history[j].writeKey == Some(key) ==> history[j].op == op)
    case Ack(n, committed) =>
      n in r.queue ==>
        exists j :: 0 <= j < |history| && history[j].writeKey == r.queue[n].key && history[j].version == committed
    case Deliver(e) => e.rowKey == k ==> e in history
    case FailedSend(_) => true
    case Prune(rowKey) => rowKey != k
  }

  /** Delivering event `i` to row state `r`. The event at the position moves it on, and one
      behind it sets it back to just after that event, unless it has no effect on the row. */
  function Delivering(history: seq<ChangeEvent>, r: RowState, seen: Seen, i: nat): Seen
    requires i < |history|
  {
    Seen(if seen.at < i || (i < seen.at && RowApply(r, history[i]).0 == r) then seen.at else i + 1,
         seen.delivered + {i})
  }

  ghost function Advance(history: seq<ChangeEvent>, r: RowState, seen: Seen, a: Action): Seen {
    if a.Deliver? && a.event in history
    then
      var i: nat :| i < |history| && history[i] == a.event;
      Delivering(history, r, seen, i)
    else seen
  }

  ghost predicate Admissible(history: seq<ChangeEvent>, k: RowKey, s: Replica, seen: Seen, trace: seq<Action>)
    decreases |trace|
  {
    trace != [] ==>
      && Allowed(history, k, RowAt(s, k), seen.delivered, trace[0])
      && Admissible(history, k, Step(s, trace[0]), Advance(history, RowAt(s, k), seen, trace[0]), trace[1..])
  }

  ghost function SeenBy(history: seq<ChangeEvent>, k: RowKey, s: Replica, seen: Seen, trace: seq<Action>): Seen
    decreases |trace|
  {
    if trace == [] then seen
    else SeenBy(history, k, Step(s, trace[0]), Advance(history, RowAt(s, k), seen, trace[0]), trace[1..])
  }

  // ------------------------------------------------------------------ invariant

  function Top(history: seq<ChangeEvent>, start: Option<Record>): Version {
    if history != [] then history[|history| - 1].version else if start.Some? then start.value.version else 0
  }

  /** Pending writes are keyed apart, not yet delivered, and compatible with the history. */
  ghost predicate PendingOk(history: seq<ChangeEvent>, queue: Queue, delivered: set<nat>) {
    && (forall n :: n in queue ==> queue[n].key.Some?)
    && (forall m, n :: m in queue && n in queue && m != n ==> queue[m].key != queue[n].key)
    && (forall n, j: nat :: n in queue && j in delivered && j < |history| ==> history[j].writeKey != queue[n].key)
    && (forall n, j :: n in queue && 0 <= j < |history| && history[j].writeKey == queue[n].key ==>
          history[j].op == queue[n].op)
  }

  /** What a pending write was superseded by is another write's commit. */
  ghost predicate SupersededOk(history: seq<ChangeEvent>, queue: Queue) {
    forall n :: n in queue && queue[n].superseded.Some? ==>
      SettledElsewhere(history, queue[n].key, queue[n].superseded.value)
  }

  ghost predicate SettledElsewhere(history: seq<ChangeEvent>, key: Option<string>, version: Version) {
    exists j :: 0 <= j < |history| && history[j].version == version && history[j].writeKey != key
  }

  ghost predicate Inv(history: seq<ChangeEvent>, k: RowKey, start: Option<Record>, r: RowState, seen: Seen) {
    && SeenOk(history, seen)
    && OwnQueue(r, k)
    && PendingOk(history, r.queue, seen.delivered)
    && SupersededOk(history, r.queue)
    && (r.rec.Some? ==> r.rec.value.version <= Top(history, start))
    && (r.queue == map[] && seen.at == |history| ==> r.rec == ServerRow(history, start))
  }

  // ------------------------------------------------------------- preservation

  lemma RetireKeepsSuperseded(history: seq<ChangeEvent>, queue: Queue, n: nat, j: nat)
    requires n in queue && j < |history| && history[j].writeKey == queue[n].key
    requires forall m, m' :: m in queue && m' in queue && m != m' ==> queue[m].key != queue[m'].key
    requires SupersededOk(history, queue)
    requires forall i :: 0 <= i < |history| ==> 0 <= history[i].version
    ensures SupersededOk(history, Retire(queue, n, history[j].version))
  {
    var queue' := Retire(queue, n, history[j].version);
    forall m | m in queue' && queue'[m].superseded.Some?
      ensures SettledElsewhere(history, queue'[m].key, queue'[m].superseded.value)
    {
      assert queue'[m].key == queue[m].key && history[j].writeKey != queue[m].key;
      if m < n && !(queue[m].superseded.Some? && history[j].version <= queue[m].superseded.value) {
        assert queue'[m].superseded.value == history[j].version;
      } else {
        assert queue'[m].superseded == queue[m].superseded;
      }
    }
  }

  /** Retiring write `n` keeps the others pending, also once its own events are delivered. */
  lemma RetireKeepsPending(history: seq<ChangeEvent>, queue: Queue, n: nat, version: Version, delivered: set<nat>,
                           own: set<nat>)
    requires n in queue && PendingOk(history, queue, delivered)
    requires forall j :: j in own ==> j < |history| && history[j].writeKey == queue[n].key
    ensures PendingOk(history, Retire(queue, n, version), delivered + own)
  {
    var queue' := Retire(queue, n, version);
    forall m | m in queue' ensures m in queue && m != n && queue'[m] == queue[m].(superseded := queue'[m].superseded) {
    }
  }

  lemma WriteKeepsInv(history: seq<ChangeEvent>, k: RowKey, start: Option<Record>, r: RowState, seen: Seen,
                      next: nat, a: Action)
    requires History(history, k, start) && Inv(history, k, start, r, seen)
    requires a.Write? && a.rowKey == k && Allowed(history, k, r, seen.delivered, a) && next !in r.queue
    ensures Inv(history, k, start, RowStep(r, k, next, a), seen)
  {
    var r' := RowStep(r, k, next, a);
    assert next in r'.queue && r'.queue[next].key == Some(a.key) && r'.queue[next].op == a.op;
    assert forall m :: m in r'.queue ==> m == next || (m in r.queue && r'.queue[m] == r.queue[m]);
    if history == [] { assert Top(history, start) >= 0; }
  }

  lemma AckKeepsInv(history: seq<ChangeEvent>, k: RowKey, start: Option<Record>, r: RowState, seen: Seen,
                    next: nat, a: Action)
    requires History(history, k, start) && Inv(history, k, start, r, seen)
    requires a.Ack? && a.n in r.queue && Allowed(history, k, r, seen.delivered, a)
    ensures Inv(history, k, start, RowStep(r, k, next, a), seen)
  {
    var j := CommitOf(history, k, r, seen.delivered, a);
    AckQueue(r, k, next, a);
    RetireKeepsPending(history, r.queue, a.n, a.committed, seen.delivered, {});
    assert seen.delivered + {} == seen.delivered;
    RetireKeepsSuperseded(history, r.queue, a.n, j);
    AckBounded(r, k, next, a, Top(history, start));
  }

  /** An acknowledged write was committed by an event that is still to be delivered. */
  lemma CommitOf(history: seq<ChangeEvent>, k: RowKey, r: RowState, delivered: set<nat>, a: Action) returns (j: nat)
    requires PendingOk(history, r.queue, delivered)
    requires a.Ack? && a.n in r.queue && Allowed(history, k, r, delivered, a)
    ensures j < |history| && j !in delivered
    ensures history[j].writeKey == r.queue[a.n].key && history[j].version == a.committed
  {
    j :| 0 <= j < |history| && history[j].writeKey == r.queue[a.n].key && history[j].version == a.committed;
  }

  lemma AckQueue(r: RowState, k: RowKey, next: nat, a: Action)
    requires a.Ack? && a.n in r.queue
    ensures RowStep(r, k, next, a).queue == Retire(r.queue, a.n, a.committed)
    ensures OwnQueue(r, k) ==> OwnQueue(RowStep(r, k, next, a), k)
  {
  }

  lemma AckBounded(r: RowState, k: RowKey, next: nat, a: Action, top: Version)
    requires a.Ack? && a.n in r.queue && a.committed <= top && (r.rec.Some? ==> r.rec.value.version <= top)
    ensures RowStep(r, k, next, a).rec.Some? ==> RowStep(r, k, next, a).rec.value.version <= top
  {
  }

  /** The last event, echoing the only pending write, is adopted as it is: what could have
      superseded the write is another write's commit, so an earlier one. */
  lemma LastEchoLands(history: seq<ChangeEvent>, k: RowKey, start: Option<Record>, r: RowState, n: nat)
    requires History(history, k, start) && history != []
    requires SupersededOk(history, r.queue)
    requires r.rec.Some? ==> r.rec.value.version <= Top(history, start)
    requires n in r.queue && r.queue[n].key.Some? && IsEchoOf(r.queue[n], history[|history| - 1])
    requires Retire(r.queue, n, history[|history| - 1].version) == map[]
    ensures RowEcho(r, history[|history| - 1], n) == RowState(ServerRow(history, start), map[])
  {
    var e := history[|history| - 1];
    assert forall j :: 0 <= j < |history| && e.version <= history[j].version ==> j == |history| - 1;
    assert Retire(r.queue, n, e.version).Keys == r.queue.Keys - {n};
    assert forall m :: m in r.queue.Keys && m != n ==> m in Retire(r.queue, n, e.version).Keys;
  }

  /** The echo was overtaken by a settled later write: the row keeps its version. */
  lemma OvertakenEcho(r: RowState, e: ChangeEvent, n: nat)
    requires n in r.queue && r.queue[n].superseded.Some? && e.version <= r.queue[n].superseded.value
    ensures RowEcho(r, e, n).rec.Some? ==> r.rec.Some? && RowEcho(r, e, n).rec.value.version == r.rec.value.version
  {
  }

  /** The echo of the newest write: the row takes the event's version or keeps a later one. */
  lemma NewestEcho(r: RowState, e: ChangeEvent, n: nat)
    requires n in r.queue && !HasNewer(r.queue, n)
    requires r.queue[n].superseded.Some? ==> r.queue[n].superseded.value < e.version
    ensures var rec := RowEcho(r, e, n).rec;
            rec.Some? ==> rec.value.version == e.version
                          || (r.rec.Some? && rec.value.version == r.rec.value.version)
  {
  }

  /** A newer write waits: the row keeps its value and the later of the two versions. */
  lemma EchoBehindNewer(r: RowState, e: ChangeEvent, n: nat)
    requires n in r.queue && HasNewer(r.queue, n)
    requires r.queue[n].superseded.Some? ==> r.queue[n].superseded.value < e.version
    ensures var rec := RowEcho(r, e, n).rec;
            rec.Some? ==> r.rec.Some? && rec.value.version == Max(r.rec.value.version, e.version)
  {
  }

  lemma EchoBounded(r: RowState, e: ChangeEvent, n: nat, top: Version)
    requires n in r.queue && e.version <= top && (r.rec.Some? ==> r.rec.value.version <= top)
    ensures RowEcho(r, e, n).rec.Some? ==> RowEcho(r, e, n).rec.value.version <= top
  {
    if r.queue[n].superseded.Some? && e.version <= r.queue[n].superseded.value {
      OvertakenEcho(r, e, n);
    } else if HasNewer(r.queue, n) {
      EchoBehindNewer(r, e, n);
    } else {
      NewestEcho(r, e, n);
    }
  }

  /** A pending write's echo is an event delivered for the first time. */
  lemma EchoIsNew(history: seq<ChangeEvent>, r: RowState, seen: Seen, i: nat, n: nat)
    requires SeenOk(history, seen) && PendingOk(history, r.queue, seen.delivered)
    requires i < |history| && FindEcho(r.queue, history[i]) == Some(n)
    ensures seen.at <= i && history[i].writeKey == r.queue[n].key
    ensures SeenOk(history, Delivering(history, r, seen, i))
  {
  }

  lemma EchoQueue(r: RowState, k: RowKey, next: nat, e: ChangeEvent, n: nat)
    requires OwnQueue(r, k) && e.rowKey == k && FindEcho(r.queue, e) == Some(n)
    ensures RowStep(r, k, next, Deliver(e)) == RowEcho(r, e, n)
    ensures RowEcho(r, e, n).queue == Retire(r.queue, n, e.version) && OwnQueue(RowEcho(r, e, n), k)
  {
  }

  /** Delivering the echo of write `n`. */
  lemma EchoKeepsInv(history: seq<ChangeEvent>, k: RowKey, start: Option<Record>, r: RowState, seen: Seen,
                     next: nat, i: nat, n: nat)
    requires History(history, k, start) && Inv(history, k, start, r, seen)
    requires i < |history| && FindEcho(r.queue, history[i]) == Some(n)
    ensures Inv(history, k, start, RowStep(r, k, next, Deliver(history[i])), Delivering(history, r, seen, i))
  {
    var e := history[i];
    EchoQueue(r, k, next, e, n);
    EchoIsNew(history, r, seen, i, n);
    RetireKeepsPending(history, r.queue, n, e.version, seen.delivered, {i});
    RetireKeepsSuperseded(history, r.queue, n, i);
    EchoBounded(r, e, n, Top(history, start));
    if Retire(r.queue, n, e.version) == map[] && i + 1 == |history| {
      LastEchoLands(history, k, start, r, n);
    }
  }

  /** Delivering an event that is no pending write's echo. */
  lemma ForeignKeepsInv(history: seq<ChangeEvent>, k: RowKey, start: Option<Record>, r: RowState, seen: Seen,
                        next: nat, i: nat)
    requires DirtyAgrees(r)
    requires History(history, k, start) && Inv(history, k, start, r, seen)
    requires i < |history| && FindEcho(r.queue, history[i]).None?
    ensures Inv(history, k, start, RowStep(r, k, next, Deliver(history[i])), Delivering(history, r, seen, i))
  {
    var e := history[i];
    var r' := RowApply(r, e).0;
    assert e.version <= Top(history, start);
    assert forall m :: m in r.queue ==> r.queue[m].key != e.writeKey;
    assert r'.queue == r.queue || r'.queue == map[];
  }

  lemma DeliverKeepsInv(history: seq<ChangeEvent>, k: RowKey, start: Option<Record>, r: RowState, seen: Seen,
                        next: nat, i: nat)
    requires DirtyAgrees(r)
    requires History(history, k, start) && Inv(history, k, start, r, seen) && i < |history|
    ensures Inv(history, k, start, RowStep(r, k, next, Deliver(history[i])), Delivering(history, r, seen, i))
  {
    var echo := FindEcho(r.queue, history[i]);
    if echo.Some? {
      EchoKeepsInv(history, k, start, r, seen, next, i, echo.value);
    } else {
      ForeignKeepsInv(history, k, start, r, seen, next, i);
    }
  }

  lemma RowStepKeepsInv(history: seq<ChangeEvent>, k: RowKey, start: Option<Record>, r: RowState, seen: Seen,
                        next: nat, a: Action)
    requires DirtyAgrees(r)
    requires History(history, k, start) && Inv(history, k, start, r, seen)
    requires Allowed(history, k, r, seen.delivered, a) && next !in r.queue
    ensures Inv(history, k, start, RowStep(r, k, next, a), Advance(history, r, seen, a))
  {
    if a.Write? && a.rowKey == k {
      WriteKeepsInv(history, k, start, r, seen, next, a);
    } else if a.Ack? && a.n in r.queue {
      AckKeepsInv(history, k, start, r, seen, next, a);
    } else if a.Deliver? && a.event in history {
      var i: nat :| i < |history| && history[i] == a.event
                    && Advance(history, r, seen, a) == Delivering(history, r, seen, i);
      DeliverKeepsInv(history, k, start, r, seen, next, i);
    } else if a.FailedSend? && a.n in r.queue {
      var r' := RowStep(r, k, next, a);
      assert a.n in r'.queue;
      forall m | m in r'.queue
        ensures m in r.queue && r'.queue[m] == r.queue[m].(attempts := r'.queue[m].attempts)
      {
      }
    }
  }

  lemma {:induction false} RunKeepsInv(history: seq<ChangeEvent>, k: RowKey, start: Option<Record>, s: Replica,
                                       seen: Seen, trace: seq<Action>)
    requires History(history, k, start) && Inv(history, k, start, RowAt(s, k), seen)
    requires Valid(s) && DirtyAgrees(RowAt(s, k)) && Admissible(history, k, s, seen, trace)
    ensures Inv(history, k, start, RowAt(Run(s, trace), k), SeenBy(history, k, s, seen, trace))
    ensures Valid(Run(s, trace)) && DirtyAgrees(RowAt(Run(s, trace), k))
    decreases |trace|
  {
    if trace != [] {
      StepIsLocal(s, trace[0], k);
      RowStepDirtyAgrees(RowAt(s, k), k, s.nextSeq, trace[0]);
      RowStepKeepsInv(history, k, start, RowAt(s, k), seen, s.nextSeq, trace[0]);
      RunKeepsInv(history, k, start, Step(s, trace[0]), Advance(history, RowAt(s, k), seen, trace[0]), trace[1..]);
    }
  }

  // ----------------------------------------------------------------- the result

  const NOTHING := Seen(0, {})

  /** Once the history is delivered to its end, counted from the last late event that had an
      effect, and nothing is queued for the row, the local row is the server's, present or
      deleted, and clean. */
  lemma {:induction false} RowConverges(history: seq<ChangeEvent>, k: RowKey, s: Replica, trace: seq<Action>)
    requires Valid(s) && RowAt(s, k).queue == map[] && History(history, k, RowAt(s, k).rec)
    requires Admissible(history, k, s, NOTHING, trace)
    requires SeenBy(history, k, s, NOTHING, trace).at == |history| && RowAt(Run(s, trace), k).queue == map[]
    ensures RowAt(Run(s, trace), k).rec == ServerRow(history, RowAt(s, k).rec)
  {
    RunKeepsInv(history, k, RowAt(s, k).rec, s, NOTHING, trace);
  }

  /** Replaying the history from position `i`, not after the one reached, leads to its end. */
  lemma {:induction false} ReplayReachesEnd(history: seq<ChangeEvent>, k: RowKey, start: Option<Record>, s: Replica,
                                            seen: Seen, i: nat)
    requires History(history, k, start) && SeenOk(history, seen) && i <= seen.at
    ensures Admissible(history, k, s, seen, Deliveries(history[i..]))
    ensures SeenBy(history, k, s, seen, Deliveries(history[i..])).at == |history|
    decreases |history| - i
  {
    if i < |history| {
      var a, trace := Deliver(history[i]), Deliveries(history[i..]);
      assert history[i..][0] == history[i] && history[i..][1..] == history[i + 1..];
      assert trace[0] == a && trace[1..] == Deliveries(history[i + 1..]);
      assert Advance(history, RowAt(s, k), seen, a) == Delivering(history, RowAt(s, k), seen, i);
      ReplayReachesEnd(history, k, start, Step(s, a), Delivering(history, RowAt(s, k), seen, i), i + 1);
    }
  }

  /** A crash replay with writes queued: after any run, reconciling the history again from
      any position not after the one reached leaves the server's row, if nothing is queued
      for it any more. */
  lemma {:induction false} ReplayConverges(history: seq<ChangeEvent>, k: RowKey, s: Replica, trace: seq<Action>,
                                           i: nat)
    requires Valid(s) && RowAt(s, k).queue == map[] && History(history, k, RowAt(s, k).rec)
    requires Admissible(history, k, s, NOTHING, trace)
    requires i <= SeenBy(history, k, s, NOTHING, trace).at
    ensures i <= |history|
    ensures var s' := DeliverAll(Run(s, trace), history[i..]);
            RowAt(s', k).queue == map[] ==> RowAt(s', k).rec == ServerRow(history, RowAt(s, k).rec)
  {
    var start, seen := RowAt(s, k).rec, SeenBy(history, k, s, NOTHING, trace);
    RunKeepsInv(history, k, start, s, NOTHING, trace);
    ReplayReachesEnd(history, k, start, Run(s, trace), seen, i);
    RunKeepsInv(history, k, start, Run(s, trace), seen, Deliveries(history[i..]));
    DeliveryIsRun(Run(s, trace), history[i..]);
  }
}
