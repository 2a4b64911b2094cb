/** A session in which only this client writes a row: however its acknowledgements and
    (repeated) echoes interleave with new edits, the row shows the last edit. */
module OwnWriteSession {
  import opened Wrappers
  import opened Merge
  import opened ReconcileCore
  import opened RowMachine
  import opened KeyedStore

  /** What each queue sequence stands for: the write's token and local value, the version the
      server commits it at and the payload the server stores, which it may have normalised.
      Fixed in advance, so that it ranges over every way a session can go. */
  datatype Plan = Plan(key: nat -> string, value: nat -> JsValue, commit: nat -> Version, stored: nat -> JsValue)

  function Echo(plan: Plan, k: RowKey, n: nat): ChangeEvent {
    ChangeEvent(k, Upsert, plan.commit(n), plan.stored(n), Some(plan.key(n)))
  }

  /** What may happen to row `k` once the writes in `written` were made: a new visible
      upsert with a fresh key, committed above everything before it; an acknowledgement
      with the write's commit version; any write's echo, with the payload that the server
      stored, any number of times; a failed send. Other rows are unrestricted. */
  ghost predicate Allowed(plan: Plan, k: RowKey, base: Version, r: RowState, next: nat, written: set<nat>, a: Action) {
    match a
    case Write(rowKey, op, _, _, strategy, key) =>
      rowKey == k ==>
        && op.Upsert? && !strategy.Pessimistic?
        && key == plan.key(next) && LocalValue(r.rec, a) == plan.value(next)
        && base < plan.commit(next)
        && forall m :: m in written ==> plan.key(m) != key && plan.commit(m) < plan.commit(next)
    case Ack(n, committed) => n in r.queue ==> committed == plan.commit(n)
    case Deliver(e) => e.rowKey == k ==> exists n :: n in written && e == Echo(plan, k, n)
    case FailedSend(_) => true
    case Prune(rowKey) => rowKey != k
  }

  function Extend(k: RowKey, next: nat, written: set<nat>, a: Action): set<nat> {
    if a.Write? && a.rowKey == k then written + {next} else written
  }

  ghost predicate Admissible(plan: Plan, k: RowKey, base: Version, s: Replica, written: set<nat>, trace: seq<Action>)
    decreases |trace|
  {
    trace != [] ==>
      && Allowed(plan, k, base, RowAt(s, k), s.nextSeq, written, trace[0])
      && Admissible(plan, k, base, Step(s, trace[0]), Extend(k, s.nextSeq, written, trace[0]), trace[1..])
  }

  /** The sequences of the writes made to row `k`. */
  function WrittenBy(k: RowKey, s: Replica, written: set<nat>, trace: seq<Action>): set<nat>
    decreases |trace|
  {
    if trace == [] then written
    else WrittenBy(k, Step(s, trace[0]), Extend(k, s.nextSeq, written, trace[0]), trace[1..])
  }

  /** Whether the server's payload of the last write has reached the row: its echo came while
      the write was queued or while nothing was. */
  predicate Landing(plan: Plan, k: RowKey, r: RowState, written: set<nat>, landed: bool, a: Action) {
    if a.Write? && a.rowKey == k then false
    else landed || (written != {} && a == Deliver(Echo(plan, k, Greatest(written)))
                    && (Greatest(written) in r.queue || r.queue == map[]))
  }

  predicate LandedBy(plan: Plan, k: RowKey, s: Replica, written: set<nat>, landed: bool, trace: seq<Action>)
    decreases |trace|
  {
    if trace == [] then landed
    else LandedBy(plan, k, Step(s, trace[0]), Extend(k, s.nextSeq, written, trace[0]),
                  Landing(plan, k, RowAt(s, k), written, landed, trace[0]), trace[1..])
  }

  /** The payload of the last write, the server's once it has landed. */
  function Shown(plan: Plan, written: set<nat>, landed: bool): JsValue
    requires written != {}
  {
    if landed then plan.stored(Greatest(written)) else plan.value(Greatest(written))
  }

  /** The largest commit version of a retired write, or the starting version. */
  function CommittedVersion(plan: Plan, base: Version, retired: set<nat>): Version {
    if retired == {} then base else plan.commit(Greatest(retired))
  }

  // ------------------------------------------------------------------ invariant

  ghost predicate PlanOk(plan: Plan, base: Version, written: set<nat>) {
    && (forall m :: m in written ==> base < plan.commit(m))
    && (forall m, n :: m in written && n in written && m < n ==>
          plan.commit(m) < plan.commit(n) && plan.key(m) != plan.key(n))
  }

  /** Queued writes are as planned; one is marked superseded exactly when a later write was
      retired, and then at or above that write's commit. */
  ghost predicate QueueOk(plan: Plan, k: RowKey, queue: Queue, written: set<nat>) {
    && queue.Keys <= written
    && (forall n :: n in queue ==>
          queue[n].rowKey == k && queue[n].op == Upsert && queue[n].key == Some(plan.key(n))
          && !queue[n].strategy.Pessimistic?)
    && (forall n, m :: n in queue && m in written - queue.Keys && n < m ==>
          queue[n].superseded.Some? && plan.commit(m) <= queue[n].superseded.value)
    && (forall n :: n in queue && queue[n].superseded.Some? ==>
          exists m :: m in written - queue.Keys && n < m)
  }

  ghost predicate RecordOk(plan: Plan, base: Version, start: Option<Record>, r: RowState, written: set<nat>,
                           landed: bool)
  {
    if written == {} then r.rec == start && !landed
    else
      r.rec == Some(Record(Shown(plan, written, landed),
                           CommittedVersion(plan, base, written - r.queue.Keys),
                           r.queue != map[]))
  }

  ghost predicate Inv(plan: Plan, k: RowKey, base: Version, start: Option<Record>, r: RowState, next: nat,
                      written: set<nat>, landed: bool) {
    && (forall n :: n in written ==> n < next)
    && PlanOk(plan, base, written)
    && QueueOk(plan, k, r.queue, written)
    && RecordOk(plan, base, start, r, written, landed)
  }

  // ------------------------------------------------------------- preservation

  /** Retiring a write raises the committed version to its own commit at least. */
  lemma RetireRaises(plan: Plan, base: Version, written: set<nat>, queue: Queue, n: nat)
    requires PlanOk(plan, base, written) && queue.Keys <= written && n in queue
    ensures CommittedVersion(plan, base, written - (queue.Keys - {n}))
         == Max(CommittedVersion(plan, base, written - queue.Keys), plan.commit(n))
  {
    var before, after := written - queue.Keys, written - (queue.Keys - {n});
    assert after == before + {n};
    var g := Greatest(after);
    if before == {} {
      assert g == n;
    } else {
      var h := Greatest(before);
      assert g == if h < n then n else h;
    }
  }

  lemma RetireKeepsQueue(plan: Plan, k: RowKey, base: Version, queue: Queue, written: set<nat>, n: nat)
    requires PlanOk(plan, base, written) && QueueOk(plan, k, queue, written) && n in queue
    ensures QueueOk(plan, k, Retire(queue, n, plan.commit(n)), written)
    ensures Retire(queue, n, plan.commit(n)).Keys == queue.Keys - {n}
  {
    RetireKeepsWrites(plan, k, queue, written, n);
    var queue' := Retire(queue, n, plan.commit(n));
    assert written - queue'.Keys == (written - queue.Keys) + {n};
    forall m, c | m in queue' && c in written - queue'.Keys && m < c
      ensures queue'[m].superseded.Some? && plan.commit(c) <= queue'[m].superseded.value
    {
      RetireMarks(plan, k, base, queue, written, n, m, c);
    }
    forall m | m in queue' && queue'[m].superseded.Some?
      ensures exists c :: c in written - queue'.Keys && m < c
    {
      RetireMarksOnly(plan, k, queue, written, n, m);
    }
  }

  lemma RetireKeepsWrites(plan: Plan, k: RowKey, queue: Queue, written: set<nat>, n: nat)
    requires QueueOk(plan, k, queue, written) && n in queue
    ensures forall m :: m in Retire(queue, n, plan.commit(n)) ==>
              var w := Retire(queue, n, plan.commit(n))[m];
              && w.rowKey == k && w.op == Upsert && w.key == Some(plan.key(m)) && !w.strategy.Pessimistic?
  {
  }

  /** A write left behind remembers every later retired write, the new one included. */
  lemma RetireMarks(plan: Plan, k: RowKey, base: Version, queue: Queue, written: set<nat>, n: nat, m: nat, c: nat)
    requires PlanOk(plan, base, written) && QueueOk(plan, k, queue, written) && n in queue
    requires m in queue && m != n && m < c && (c == n || c in written - queue.Keys)
    ensures var w := Retire(queue, n, plan.commit(n))[m];
            w.superseded.Some? && plan.commit(c) <= w.superseded.value
  {
  }

  /** And it is marked only if there is one. */
  lemma RetireMarksOnly(plan: Plan, k: RowKey, queue: Queue, written: set<nat>, n: nat, m: nat)
    requires QueueOk(plan, k, queue, written) && n in queue && m in queue && m != n
    requires Retire(queue, n, plan.commit(n))[m].superseded.Some?
    ensures exists c :: c in written - Retire(queue, n, plan.commit(n)).Keys && m < c
  {
    var retired := written - Retire(queue, n, plan.commit(n)).Keys;
    if m < n {
      assert n in retired;
    } else {
      var c :| c in written - queue.Keys && m < c;
      assert c in retired;
    }
  }

  lemma WriteKeepsQueue(plan: Plan, k: RowKey, queue: Queue, next: nat, written: set<nat>, write: QueuedWrite)
    requires QueueOk(plan, k, queue, written) && forall n :: n in written ==> n < next
    requires write.rowKey == k && write.op == Upsert && write.key == Some(plan.key(next))
    requires !write.strategy.Pessimistic? && write.superseded.None?
    ensures QueueOk(plan, k, queue[next := write], written + {next})
    ensures written + {next} - queue[next := write].Keys == written - queue.Keys
  {
    var queue' := queue[next := write];
    assert written + {next} - queue'.Keys == written - queue.Keys;
    assert forall n :: n in queue' ==> n == next || (n in queue && queue'[n] == queue[n]);
  }

  lemma WriteKeepsPlan(plan: Plan, base: Version, next: nat, written: set<nat>)
    requires PlanOk(plan, base, written) && base < plan.commit(next)
    requires forall m :: m in written ==>
               m < next && plan.key(m) != plan.key(next) && plan.commit(m) < plan.commit(next)
    ensures PlanOk(plan, base, written + {next})
  {
  }

  lemma WriteKeepsInv(plan: Plan, k: RowKey, base: Version, start: Option<Record>, r: RowState, next: nat,
                      written: set<nat>, landed: bool, a: Action)
    requires Inv(plan, k, base, start, r, next, written, landed)
    requires a.Write? && a.rowKey == k && Allowed(plan, k, base, r, next, written, a)
    requires base == (if start.Some? then start.value.version else 0)
    ensures Inv(plan, k, base, start, RowStep(r, k, next, a), next + 1, written + {next}, false)
  {
    var write := NewWrite(r.rec, a);
    WriteKeepsPlan(plan, base, next, written);
    WriteKeepsQueue(plan, k, r.queue, next, written, write);
    WriteKeepsRecord(plan, k, base, start, r, next, written, landed, a);
    assert RowStep(r, k, next, a).queue == r.queue[next := write];
  }

  lemma WriteKeepsRecord(plan: Plan, k: RowKey, base: Version, start: Option<Record>, r: RowState, next: nat,
                         written: set<nat>, landed: bool, a: Action)
    requires RecordOk(plan, base, start, r, written, landed) && forall n :: n in written ==> n < next
    requires a.Write? && a.rowKey == k && a.op.Upsert? && !a.strategy.Pessimistic?
    requires LocalValue(r.rec, a) == plan.value(next)
    requires written + {next} - r.queue[next := NewWrite(r.rec, a)].Keys == written - r.queue.Keys
    requires base == (if start.Some? then start.value.version else 0)
    ensures RecordOk(plan, base, start, RowStep(r, k, next, a), written + {next}, false)
  {
    assert Greatest(written + {next}) == next;
    assert next in RowStep(r, k, next, a).queue;
    if written == {} {
      assert CommittedVersion(plan, base, {} - r.queue.Keys) == base;
    }
  }

  lemma FailedSendKeepsInv(plan: Plan, k: RowKey, base: Version, start: Option<Record>, r: RowState, next: nat,
                           written: set<nat>, landed: bool, n: nat)
    requires Inv(plan, k, base, start, r, next, written, landed) && n in r.queue
    ensures Inv(plan, k, base, start, RowStep(r, k, next, FailedSend(n)), next, written, landed)
  {
    var r' := RowStep(r, k, next, FailedSend(n));
    assert r'.queue.Keys == r.queue.Keys;
    assert r'.queue != map[];
    forall m | m in r'.queue ensures r'.queue[m] == r.queue[m].(attempts := r'.queue[m].attempts) {
    }
  }

  lemma AckKeepsInv(plan: Plan, k: RowKey, base: Version, start: Option<Record>, r: RowState, next: nat,
                    written: set<nat>, landed: bool, n: nat)
    requires Inv(plan, k, base, start, r, next, written, landed) && n in r.queue
    ensures Inv(plan, k, base, start, RowStep(r, k, next, Ack(n, plan.commit(n))), next, written, landed)
  {
    RetireKeepsQueue(plan, k, base, r.queue, written, n);
    RetireRaises(plan, base, written, r.queue, n);
  }

  /** The echo of a queued write: the newest one restores its own value, an older one
      leaves the newer value in place. */
  lemma EchoKeepsInv(plan: Plan, k: RowKey, base: Version, start: Option<Record>, r: RowState, next: nat,
                     written: set<nat>, landed: bool, n: nat)
    requires Inv(plan, k, base, start, r, next, written, landed) && n in r.queue
    ensures Inv(plan, k, base, start, RowStep(r, k, next, Deliver(Echo(plan, k, n))), next, written,
                landed || n == Greatest(written))
  {
    EchoIsAdopted(plan, k, base, r, next, written, n);
    RetireKeepsQueue(plan, k, base, r.queue, written, n);
    EchoKeepsRecord(plan, k, base, start, r, next, written, landed, n);
  }

  lemma EchoIsAdopted(plan: Plan, k: RowKey, base: Version, r: RowState, next: nat, written: set<nat>, n: nat)
    requires PlanOk(plan, base, written) && QueueOk(plan, k, r.queue, written) && n in r.queue
    ensures RowStep(r, k, next, Deliver(Echo(plan, k, n))) == RowEcho(r, Echo(plan, k, n), n)
  {
    EchoFound(plan, k, base, r.queue, written, n);
  }

  lemma EchoKeepsRecord(plan: Plan, k: RowKey, base: Version, start: Option<Record>, r: RowState, next: nat,
                        written: set<nat>, landed: bool, n: nat)
    requires Inv(plan, k, base, start, r, next, written, landed) && n in r.queue
    ensures RecordOk(plan, base, start, RowEcho(r, Echo(plan, k, n), n), written, landed || n == Greatest(written))
    ensures RowEcho(r, Echo(plan, k, n), n).queue == Retire(r.queue, n, plan.commit(n))
  {
    RetireRaises(plan, base, written, r.queue, n);
    var queue' := Retire(r.queue, n, plan.commit(n));
    assert written - queue'.Keys == written - (r.queue.Keys - {n});
    if r.queue[n].superseded.Some? {
      OvertakenEcho(plan, k, base, r, written, n);
      assert n != Greatest(written);
      return;
    }
    TimelyEcho(plan, k, base, r, written, n);
    if HasNewer(r.queue, n) {
      var m :| m in r.queue && n < m;
      assert m in queue';
    } else {
      assert forall m :: m in written ==> m <= n;
      assert Greatest(written) == n;
    }
  }

  /** A later write of the session was retired first: only the dirty flag can change. */
  lemma OvertakenEcho(plan: Plan, k: RowKey, base: Version, r: RowState, written: set<nat>, n: nat)
    requires PlanOk(plan, base, written) && QueueOk(plan, k, r.queue, written)
    requires n in r.queue && r.queue[n].superseded.Some?
    ensures plan.commit(n) <= CommittedVersion(plan, base, written - r.queue.Keys)
    ensures RowEcho(r, Echo(plan, k, n), n).rec
         == if r.rec.Some? then Some(r.rec.value.(dirty := Retire(r.queue, n, plan.commit(n)) != map[])) else None
  {
    var retired := written - r.queue.Keys;
    var m :| m in retired && n < m;
    assert plan.commit(n) < plan.commit(m) <= r.queue[n].superseded.value;
    assert m <= Greatest(retired) && plan.commit(m) <= plan.commit(Greatest(retired));
  }

  /** No later write of the session was retired: the row's version is below this commit. */
  lemma TimelyEcho(plan: Plan, k: RowKey, base: Version, r: RowState, written: set<nat>, n: nat)
    requires PlanOk(plan, base, written) && QueueOk(plan, k, r.queue, written)
    requires n in r.queue && r.queue[n].superseded.None?
    ensures CommittedVersion(plan, base, written - r.queue.Keys) < plan.commit(n)
  {
    var retired := written - r.queue.Keys;
    if retired != {} {
      assert Greatest(retired) < n;
    }
  }

  /** Only the write itself answers to its token. */
  lemma EchoFound(plan: Plan, k: RowKey, base: Version, queue: Queue, written: set<nat>, n: nat)
    requires PlanOk(plan, base, written) && QueueOk(plan, k, queue, written) && n in written
    ensures FindEcho(queue, Echo(plan, k, n)) == if n in queue then Some(n) else None
  {
    forall m | m in queue && IsEchoOf(queue[m], Echo(plan, k, n)) ensures m == n {
      assert plan.key(m) == plan.key(n);
      assert m < n || n < m || m == n;
    }
    if n in queue {
      assert IsEchoOf(queue[n], Echo(plan, k, n));
    }
  }

  /** The echo of a write retired before: it is ignored, except that the last write's echo
      refreshes the payload when nothing is queued. */
  lemma RetiredEcho(plan: Plan, k: RowKey, base: Version, start: Option<Record>, r: RowState, next: nat,
                    written: set<nat>, landed: bool, n: nat)
    requires Inv(plan, k, base, start, r, next, written, landed) && n in written && n !in r.queue
    ensures RowStep(r, k, next, Deliver(Echo(plan, k, n)))
         == if r.queue == map[] && n == Greatest(written)
            then RowState(Some(Record(plan.stored(n), plan.commit(n), false)), map[]) else r
  {
    EchoFound(plan, k, base, r.queue, written, n);
    var retired := written - r.queue.Keys;
    assert n in retired;
    var g := Greatest(retired);
    assert plan.commit(n) <= plan.commit(g);
    if r.queue == map[] {
      assert retired == written;
      assert plan.commit(n) == plan.commit(g) ==> n == g;
    }
  }

  /** A repeated echo changes nothing: its payload has landed before, or was never another. */
  lemma RepeatedEchoIsIgnored(plan: Plan, k: RowKey, base: Version, start: Option<Record>, r: RowState, next: nat,
                              written: set<nat>, landed: bool, n: nat)
    requires Inv(plan, k, base, start, r, next, written, landed) && n in written && n !in r.queue
    requires landed || plan.stored(n) == plan.value(n)
    ensures RowStep(r, k, next, Deliver(Echo(plan, k, n))) == r
  {
    RetiredEcho(plan, k, base, start, r, next, written, landed, n);
    if r.queue == map[] {
      assert written - r.queue.Keys == written;
    }
  }

  lemma {:induction false} RunKeepsInv(plan: Plan, k: RowKey, base: Version, start: Option<Record>, s: Replica,
                                       written: set<nat>, landed: bool, trace: seq<Action>)
    requires Valid(s) && Inv(plan, k, base, start, RowAt(s, k), s.nextSeq, written, landed)
    requires base == (if start.Some? then start.value.version else 0)
    requires Admissible(plan, k, base, s, written, trace)
    ensures Inv(plan, k, base, start, RowAt(Run(s, trace), k), Run(s, trace).nextSeq, WrittenBy(k, s, written, trace),
                LandedBy(plan, k, s, written, landed, trace))
    decreases |trace|
  {
    if trace != [] {
      var a, r := trace[0], RowAt(s, k);
      StepIsLocal(s, a, k);
      StepKeepsInv(plan, k, base, start, r, s.nextSeq, written, landed, a);
      var next' := if a.Write? then s.nextSeq + 1 else s.nextSeq;
      assert Step(s, a).nextSeq == next';
      RunKeepsInv(plan, k, base, start, Step(s, a), Extend(k, s.nextSeq, written, a),
                  Landing(plan, k, r, written, landed, a), trace[1..]);
    }
  }

  lemma StepKeepsInv(plan: Plan, k: RowKey, base: Version, start: Option<Record>, r: RowState, next: nat,
                     written: set<nat>, landed: bool, a: Action)
    requires Inv(plan, k, base, start, r, next, written, landed) && Allowed(plan, k, base, r, next, written, a)
    requires base == (if start.Some? then start.value.version else 0)
    ensures Inv(plan, k, base, start, RowStep(r, k, next, a), if a.Write? then next + 1 else next,
                Extend(k, next, written, a), Landing(plan, k, r, written, landed, a))
  {
    match a
    case Write(rowKey, _, _, _, _, _) =>
      if rowKey == k {
        WriteKeepsInv(plan, k, base, start, r, next, written, landed, a);
      }
    case Ack(n, _) =>
      if n in r.queue {
        AckKeepsInv(plan, k, base, start, r, next, written, landed, n);
      }
    case FailedSend(n) =>
      if n in r.queue {
        FailedSendKeepsInv(plan, k, base, start, r, next, written, landed, n);
      }
    case Deliver(e) =>
      if e.rowKey == k {
        DeliverKeepsInv(plan, k, base, start, r, next, written, landed, e);
      }
    case Prune(_) =>
  }

  lemma DeliverKeepsInv(plan: Plan, k: RowKey, base: Version, start: Option<Record>, r: RowState, next: nat,
                        written: set<nat>, landed: bool, e: ChangeEvent)
    requires Inv(plan, k, base, start, r, next, written, landed)
    requires e.rowKey == k && Allowed(plan, k, base, r, next, written, Deliver(e))
    ensures Inv(plan, k, base, start, RowStep(r, k, next, Deliver(e)), next, written,
                Landing(plan, k, r, written, landed, Deliver(e)))
  {
    var n :| n in written && e == Echo(plan, k, n);
    EchoNamesWrite(plan, k, base, written, n, Greatest(written));
    if n in r.queue {
      EchoKeepsInv(plan, k, base, start, r, next, written, landed, n);
    } else {
      RetiredEcho(plan, k, base, start, r, next, written, landed, n);
      if r.queue == map[] {
        assert written - r.queue.Keys == written;
      }
    }
  }

  lemma EchoNamesWrite(plan: Plan, k: RowKey, base: Version, written: set<nat>, m: nat, n: nat)
    requires PlanOk(plan, base, written) && m in written && n in written
    ensures Echo(plan, k, m) == Echo(plan, k, n) <==> m == n
  {
    assert m < n || n < m || m == n;
  }

  /** In every interleaving the row shows the last write, at the largest commit version
      retired so far, and it is dirty exactly while a write is queued. The payload is the one
      the server stored once an echo of the last write has landed, else the local one. */
  lemma {:induction false} SessionShowsLastWrite(plan: Plan, k: RowKey, s: Replica, trace: seq<Action>)
    requires Valid(s) && RowAt(s, k).queue == map[]
    requires Admissible(plan, k, if k in s.rows then s.rows[k].version else 0, s, {}, trace)
    ensures var base: Version := if k in s.rows then s.rows[k].version else 0;
            var written := WrittenBy(k, s, {}, trace);
            var r := RowAt(Run(s, trace), k);
            && r.queue.Keys <= written
            && r.rec == if written == {} then RowAt(s, k).rec
                        else Some(Record(Shown(plan, written, LandedBy(plan, k, s, {}, false, trace)),
                                         CommittedVersion(plan, base, written - r.queue.Keys),
                                         r.queue != map[]))
  {
    var base: Version := if k in s.rows then s.rows[k].version else 0;
    RunKeepsInv(plan, k, base, RowAt(s, k).rec, s, {}, false, trace);
  }

  // --------------------------------------------- when the server's payload reaches the row

  /** Step `i` of the run delivers the echo of write `n` while that write is queued or while
      nothing is queued for the row. */
  ghost predicate EchoLands(plan: Plan, k: RowKey, s: Replica, trace: seq<Action>, n: nat, i: int) {
    && 0 <= i < |trace| && trace[i] == Deliver(Echo(plan, k, n))
    && (n in RowAt(Run(s, trace[..i]), k).queue || RowAt(Run(s, trace[..i]), k).queue == map[])
  }

  lemma {:induction false} WrittenGrows(k: RowKey, s: Replica, written: set<nat>, trace: seq<Action>)
    ensures written <= WrittenBy(k, s, written, trace)
    ensures forall m :: m in WrittenBy(k, s, written, trace) && m !in written ==> s.nextSeq <= m
    decreases |trace|
  {
    if trace != [] {
      WrittenGrows(k, Step(s, trace[0]), Extend(k, s.nextSeq, written, trace[0]), trace[1..]);
    }
  }

  /** A landing step of a run is its first step or one of the rest of it. */
  lemma {:induction false} LandsLater(plan: Plan, k: RowKey, s: Replica, trace: seq<Action>, n: nat, i: int)
    requires trace != [] && i != 0
    ensures EchoLands(plan, k, s, trace, n, i) <==> EchoLands(plan, k, Step(s, trace[0]), trace[1..], n, i - 1)
  {
    if 0 < i < |trace| {
      assert trace[..i][1..] == trace[1..][..i - 1];
    }
  }

  lemma {:induction false} LandsSomewhere(plan: Plan, k: RowKey, s: Replica, trace: seq<Action>, n: nat)
    requires trace != []
    ensures (exists i :: EchoLands(plan, k, s, trace, n, i))
       <==> EchoLands(plan, k, s, trace, n, 0)
            || exists i :: EchoLands(plan, k, Step(s, trace[0]), trace[1..], n, i)
  {
    if i :| EchoLands(plan, k, s, trace, n, i) {
      if i != 0 {
        LandsLater(plan, k, s, trace, n, i);
      }
    }
    if i :| EchoLands(plan, k, Step(s, trace[0]), trace[1..], n, i) {
      LandsLater(plan, k, s, trace, n, i + 1);
    }
  }

  /** The first step lands the last write of the run only if no write follows. */
  lemma {:induction false} FirstStepLands(plan: Plan, k: RowKey, base: Version, s: Replica, written: set<nat>,
                                          all: set<nat>, landed: bool, trace: seq<Action>)
    requires trace != [] && all != {} && PlanOk(plan, base, all)
    requires Allowed(plan, k, base, RowAt(s, k), s.nextSeq, written, trace[0])
    requires forall n :: n in written ==> n < s.nextSeq
    requires Extend(k, s.nextSeq, written, trace[0]) <= all && written <= all
    requires forall m :: m in all && m !in written ==> s.nextSeq <= m
    ensures Landing(plan, k, RowAt(s, k), written, landed, trace[0]) && all == Extend(k, s.nextSeq, written, trace[0])
       <==> (landed && all == written) || EchoLands(plan, k, s, trace, Greatest(all), 0)
  {
    var a, g := trace[0], Greatest(all);
    assert trace[..0] == [];
    if a.Write? && a.rowKey == k {
      assert s.nextSeq in all && s.nextSeq !in written;
    } else if a == Deliver(Echo(plan, k, g)) {
      var n :| n in written && a.event == Echo(plan, k, n);
      EchoNamesWrite(plan, k, base, all, n, g);
      assert all == written;
    }
  }

  lemma {:induction false} LandedIsEcho(plan: Plan, k: RowKey, base: Version, start: Option<Record>, s: Replica,
                                        written: set<nat>, landed: bool, trace: seq<Action>)
    requires Valid(s) && Inv(plan, k, base, start, RowAt(s, k), s.nextSeq, written, landed)
    requires base == (if start.Some? then start.value.version else 0)
    requires Admissible(plan, k, base, s, written, trace) && WrittenBy(k, s, written, trace) != {}
    ensures var all := WrittenBy(k, s, written, trace);
            LandedBy(plan, k, s, written, landed, trace)
            <==> (landed && all == written) || exists i :: EchoLands(plan, k, s, trace, Greatest(all), i)
    decreases |trace|
  {
    var all := WrittenBy(k, s, written, trace);
    if trace != [] {
      var a, r := trace[0], RowAt(s, k);
      StepIsLocal(s, a, k);
      StepKeepsInv(plan, k, base, start, r, s.nextSeq, written, landed, a);
      var written', landed' := Extend(k, s.nextSeq, written, a), Landing(plan, k, r, written, landed, a);
      assert Step(s, a).nextSeq == if a.Write? then s.nextSeq + 1 else s.nextSeq;
      LandedIsEcho(plan, k, base, start, Step(s, a), written', landed', trace[1..]);
      RunKeepsInv(plan, k, base, start, s, written, landed, trace);
      WrittenGrows(k, s, written, trace);
      WrittenGrows(k, Step(s, a), written', trace[1..]);
      FirstStepLands(plan, k, base, s, written, all, landed, trace);
      LandsSomewhere(plan, k, s, trace, Greatest(all));
    }
  }

  /** A session whose echoes may be normalised ends with the server's payload if and only if
      the server stored what was written, or some echo of the last write was delivered while
      that write was queued or while nothing was queued for the row. */
  lemma {:induction false} ServerPayloadLandsExactly(plan: Plan, k: RowKey, s: Replica, trace: seq<Action>)
    requires Valid(s) && RowAt(s, k).queue == map[]
    requires Admissible(plan, k, if k in s.rows then s.rows[k].version else 0, s, {}, trace)
    requires WrittenBy(k, s, {}, trace) != {}
    ensures var g := Greatest(WrittenBy(k, s, {}, trace));
            var rec := RowAt(Run(s, trace), k).rec;
            && rec.Some?
            && (rec.value.row == plan.stored(g)
                <==> plan.stored(g) == plan.value(g) || exists i :: EchoLands(plan, k, s, trace, g, i))
  {
    var base: Version := if k in s.rows then s.rows[k].version else 0;
    SessionShowsLastWrite(plan, k, s, trace);
    LandedIsEcho(plan, k, base, RowAt(s, k).rec, s, {}, false, trace);
  }

  // ------------------------------------------------- why the session is restricted so

  function Edit(k: RowKey, row: JsValue, key: string): Action {
    Write(k, Upsert, row, false, Optimistic, key)
  }

  /** Two edits of an absent row, written at the given sequences. */
  function TwoEdits(k: RowKey, first: JsValue, second: JsValue): RowState {
    RowStep(RowStep(RowState(None, map[]), k, 1, Edit(k, first, "a")), k, 2, Edit(k, second, "b"))
  }

  lemma TwoEditsQueue(k: RowKey, first: JsValue, second: JsValue)
    ensures var w, w' := QueuedWrite(k, Upsert, first, 0, Some("a"), Optimistic, 0, None),
                         QueuedWrite(k, Upsert, second, 0, Some("b"), Optimistic, 0, None);
            TwoEdits(k, first, second) == RowState(Some(Record(second, 0, true)), map[1 := w, 2 := w'])
  {
  }

  /** Echoes must be verbatim: when the last edit is acknowledged before its echo arrives, and
      an older edit still waits, the echo is ignored and the payload that the server stored
      instead never reaches the row, which ends clean under the server's version. */
  lemma NormalisedEchoIsMissed(k: RowKey, first: JsValue, second: JsValue, normal: JsValue)
    requires normal != second
    ensures var trace := [Edit(k, first, "a"), Edit(k, second, "b"), Ack(2, 2),
                          Deliver(ChangeEvent(k, Upsert, 2, normal, Some("b"))), Ack(1, 1)];
            var r := RowAt(Run(FRESH, trace), k);
            r == RowState(Some(Record(second, 2, false)), map[]) && r.rec.value.row != normal
  {
    var e := ChangeEvent(k, Upsert, 2, normal, Some("b"));
    MissedEcho(k, first, second, e);
    RowRunFive(RowState(None, map[]), k, Edit(k, first, "a"), Edit(k, second, "b"), Ack(2, 2), Deliver(e), Ack(1, 1));
    FreshRow(k);
    RunIsLocal(FRESH, [Edit(k, first, "a"), Edit(k, second, "b"), Ack(2, 2), Deliver(e), Ack(1, 1)], k);
  }

  lemma FreshRow(k: RowKey)
    ensures RowAt(FRESH, k) == RowState(None, map[])
  {
  }

  lemma MissedEcho(k: RowKey, first: JsValue, second: JsValue, e: ChangeEvent)
    requires e.rowKey == k && e.op.Upsert? && e.version == 2 && e.writeKey == Some("b")
    ensures var echoed := RowStep(RowStep(TwoEdits(k, first, second), k, 3, Ack(2, 2)), k, 3, Deliver(e));
            RowStep(echoed, k, 3, Ack(1, 1)) == RowState(Some(Record(second, 2, false)), map[])
  {
    TwoEditsQueue(k, first, second);
    var acked := RowStep(TwoEdits(k, first, second), k, 3, Ack(2, 2));
    assert acked.queue.Keys == {1} && acked.rec == Some(Record(second, 2, true));
    assert !IsEchoOf(acked.queue[1], e);
    assert RowStep(acked, k, 3, Deliver(e)) == acked;
    assert Retire(acked.queue, 1, 1) == map[];
  }

  /** Commits must rise in queue order: when the server commits the earlier edit last, so that
      the row there is `first`, and the echoes arrive in reverse, the row keeps the later edit
      under the earlier one's version. */
  lemma ReversedCommitsRelabel(k: RowKey, first: JsValue, second: JsValue)
    requires first != second
    ensures var trace := [Edit(k, first, "a"), Edit(k, second, "b"),
                          Deliver(ChangeEvent(k, Upsert, 2, first, Some("a"))),
                          Deliver(ChangeEvent(k, Upsert, 1, second, Some("b")))];
            var r := RowAt(Run(FRESH, trace), k);
            r == RowState(Some(Record(second, 2, false)), map[]) && r.rec.value.row != first
  {
    var e, e' := ChangeEvent(k, Upsert, 2, first, Some("a")), ChangeEvent(k, Upsert, 1, second, Some("b"));
    ReversedEchoes(k, first, second, e, e');
    RowRunFour(RowState(None, map[]), k, Edit(k, first, "a"), Edit(k, second, "b"), Deliver(e), Deliver(e'));
    FreshRow(k);
    RunIsLocal(FRESH, [Edit(k, first, "a"), Edit(k, second, "b"), Deliver(e), Deliver(e')], k);
  }

  lemma ReversedEchoes(k: RowKey, first: JsValue, second: JsValue, e: ChangeEvent, e': ChangeEvent)
    requires e == ChangeEvent(k, Upsert, 2, first, Some("a")) && e' == ChangeEvent(k, Upsert, 1, second, Some("b"))
    ensures RowStep(RowStep(TwoEdits(k, first, second), k, 3, Deliver(e)), k, 3, Deliver(e'))
         == RowState(Some(Record(second, 2, false)), map[])
  {
    TwoEditsQueue(k, first, second);
    var edits := TwoEdits(k, first, second);
    assert IsEchoOf(edits.queue[1], e) && !IsEchoOf(edits.queue[2], e) && HasNewer(edits.queue, 1);
    var r := RowStep(edits, k, 3, Deliver(e));
    assert r.queue.Keys == {2} && r.rec == Some(Record(second, 2, true));
    assert IsEchoOf(r.queue[2], e') && !HasNewer(r.queue, 2);
    assert Retire(r.queue, 2, 1) == map[];
  }
}
