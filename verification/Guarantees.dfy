/** What every client step keeps, and safety over whole runs: dirty flags, versions,
    queued intent and local edits. */
module Guarantees {
  import opened Wrappers
  import opened Merge
  import opened ReconcileCore
  import opened RowMachine
  import opened KeyedStore

  // ----------------------------------------------------- dirty rows and the queue

  /** A dirty row has a queued write, and a present row with a queued write that was
      made visible at once is dirty. */
  ghost predicate DirtyAgrees(r: RowState) {
    && (r.rec.Some? && r.rec.value.dirty ==> r.queue != map[])
    && (r.rec.Some? && (exists n :: n in r.queue && !r.queue[n].strategy.Pessimistic?) ==> r.rec.value.dirty)
  }

  lemma RowStepDirtyAgrees(r: RowState, k: RowKey, next: nat, a: Action)
    requires DirtyAgrees(r)
    ensures DirtyAgrees(RowStep(r, k, next, a))
  {
    if a.Write? && a.rowKey == k {
      WriteDirtyAgrees(r, k, next, a);
    } else if a.FailedSend? && a.n in r.queue {
      assert a.n in RowStep(r, k, next, a).queue;
      SameWritesAgree(r, RowStep(r, k, next, a));
    } else if a.Ack? && a.n in r.queue {
      AckDirtyAgrees(r, k, next, a);
    } else if a.Deliver? && a.event.rowKey == k {
      DeliverDirtyAgrees(r, k, next, a);
    }
  }

  lemma WriteDirtyAgrees(r: RowState, k: RowKey, next: nat, a: Action)
    requires DirtyAgrees(r) && a.Write? && a.rowKey == k
    ensures DirtyAgrees(RowStep(r, k, next, a))
  {
    var r' := RowStep(r, k, next, a);
    assert next in r'.queue;
    assert forall n :: n in r'.queue && n != next ==> n in r.queue && r'.queue[n] == r.queue[n];
  }

  lemma SameWritesAgree(r: RowState, r': RowState)
    requires DirtyAgrees(r) && r'.rec == r.rec && (r.queue != map[] ==> r'.queue != map[])
    requires forall n :: n in r'.queue ==> n in r.queue && r'.queue[n].strategy == r.queue[n].strategy
    ensures DirtyAgrees(r')
  {
  }

  lemma RetiredAreQueued(queue: Queue, n: nat, version: Version)
    requires n in queue
    ensures forall m :: m in Retire(queue, n, version) ==>
              m in queue && Retire(queue, n, version)[m].strategy == queue[m].strategy
    ensures HasNewer(queue, n) ==> Retire(queue, n, version) != map[]
  {
    if m :| m in queue && n < m {
      assert m in Retire(queue, n, version);
    }
  }

  lemma AckDirtyAgrees(r: RowState, k: RowKey, next: nat, a: Action)
    requires DirtyAgrees(r) && a.Ack? && a.n in r.queue
    ensures DirtyAgrees(RowStep(r, k, next, a))
  {
    RetiredAreQueued(r.queue, a.n, a.committed);
  }

  lemma DeliverDirtyAgrees(r: RowState, k: RowKey, next: nat, a: Action)
    requires DirtyAgrees(r) && a.Deliver? && a.event.rowKey == k
    ensures DirtyAgrees(RowStep(r, k, next, a))
  {
    var echo := FindEcho(r.queue, a.event);
    if echo.Some? {
      RetiredAreQueued(r.queue, echo.value, a.event.version);
    }
  }

  lemma {:induction false} RunDirtyAgrees(s: Replica, trace: seq<Action>, k: RowKey)
    requires Valid(s) && DirtyAgrees(RowAt(s, k))
    ensures DirtyAgrees(RowAt(Run(s, trace), k))
    decreases |trace|
  {
    if trace != [] {
      StepIsLocal(s, trace[0], k);
      RowStepDirtyAgrees(RowAt(s, k), k, s.nextSeq, trace[0]);
      RunDirtyAgrees(Step(s, trace[0]), trace[1..], k);
    }
  }

  // ----------------------------------------------------------- version monotonicity

  /** A late pessimistic acknowledgement is written over whatever newer version the row
      holds, unless a newer optimistic value is pending. */
  predicate Relabels(r: RowState, a: Action) {
    && a.Ack? && a.n in r.queue && r.queue[a.n].strategy.Pessimistic? && r.queue[a.n].op.Upsert?
    && r.rec.Some? && a.committed < r.rec.value.version
    && !(r.rec.value.dirty && HasNewer(r.queue, a.n))
  }

  /** While a row stays present its version goes down in exactly one case. */
  lemma VersionDropsExactlyWhenRelabelled(r: RowState, k: RowKey, next: nat, a: Action)
    requires r.rec.Some? && RowStep(r, k, next, a).rec.Some?
    ensures RowStep(r, k, next, a).rec.value.version < r.rec.value.version <==> Relabels(r, a)
  {
  }

  /** A run that shows it: two pessimistic writes of a fresh row, acknowledged in reverse. The
      row ends clean, with the older payload at the lower version. */
  lemma ReversedPessimisticAcks(k: RowKey, first: JsValue, second: JsValue)
    ensures var w := Write(k, Upsert, first, false, Pessimistic, "a");
            var w' := Write(k, Upsert, second, false, Pessimistic, "b");
            var before := Run(FRESH, [w, w', Ack(2, 2)]);
            && RowAt(before, k).rec == Some(Record(second, 2, true))
            && Relabels(RowAt(before, k), Ack(1, 1))
            && RowAt(Step(before, Ack(1, 1)), k) == RowState(Some(Record(first, 1, false)), map[])
  {
    var w, w' := Write(k, Upsert, first, false, Pessimistic, "a"), Write(k, Upsert, second, false, Pessimistic, "b");
    RunThree(FRESH, w, w', Ack(2, 2));
    var s1 := Step(FRESH, w);
    var s2 := Step(s1, w');
    StepIsLocal(FRESH, w, k);
    StepIsLocal(s1, w', k);
    StepIsLocal(s2, Ack(2, 2), k);
    assert RowAt(FRESH, k) == RowState(None, map[]);
    TwoPessimistic(RowAt(s2, k), first, second);
    StepIsLocal(Step(s2, Ack(2, 2)), Ack(1, 1), k);
  }

  lemma TwoPessimistic(r: RowState, first: JsValue, second: JsValue)
    requires r.rec == None && r.queue.Keys == {1, 2}
    requires r.queue[1].strategy.Pessimistic? && r.queue[1].op.Upsert? && r.queue[1].payload == first
    requires r.queue[2].strategy.Pessimistic? && r.queue[2].op.Upsert? && r.queue[2].payload == second
    ensures var acked := RowPessimistic(r, 2, 2).0;
            && acked.rec == Some(Record(second, 2, true))
            && acked.queue.Keys == {1} && acked.queue[1] == r.queue[1].(superseded := Raise(r.queue[1].superseded, 2))
            && RowPessimistic(acked, 1, 1).0 == RowState(Some(Record(first, 1, false)), map[])
  {
    var acked := RowPessimistic(r, 2, 2).0;
    assert 1 in Retire(r.queue, 2, 2);
    assert acked.queue.Keys == {1};
    assert !HasNewer(acked.queue, 1);
    assert Retire(acked.queue, 1, 1) == map[];
  }

  /** Row `k` is present after every step of the run, and no step relabels it. */
  ghost predicate StaysPresent(s: Replica, trace: seq<Action>, k: RowKey)
    decreases |trace|
  {
    && k in s.rows
    && (trace != [] ==> !Relabels(RowAt(s, k), trace[0]) && StaysPresent(Step(s, trace[0]), trace[1..], k))
  }

  lemma {:induction false} RunKeepsVersion(s: Replica, trace: seq<Action>, k: RowKey)
    requires Valid(s) && StaysPresent(s, trace, k)
    ensures k in Run(s, trace).rows && s.rows[k].version <= Run(s, trace).rows[k].version
    decreases |trace|
  {
    if trace != [] {
      var s' := Step(s, trace[0]);
      StepIsLocal(s, trace[0], k);
      assert k in s'.rows && RowAt(s', k).rec == Some(s'.rows[k]);
      VersionDropsExactlyWhenRelabelled(RowAt(s, k), k, s.nextSeq, trace[0]);
      RunKeepsVersion(s', trace[1..], k);
    }
  }

  // ---------------------------------------------------------- conservation of writes

  datatype Reason = ByAck | ByEcho | ByConflict

  /** The writes of row `k` that an action retires, with the reason. */
  function RowRetired(r: RowState, k: RowKey, a: Action): map<nat, Reason> {
    match a
    case Ack(n, _) => if n in r.queue then map[n := ByAck] else map[]
    case Deliver(e) =>
      if e.rowKey != k then map[]
      else
        var echo := FindEcho(r.queue, e);
        if echo.Some? then map[echo.value := ByEcho]
        else if Reconcile(ReconcileLocal(r), e).Conflict? then map n | n in r.queue :: ByConflict
        else map[]
    case _ => map[]
  }

  function Retired(s: Replica, a: Action): map<nat, Reason> {
    var target := Target(s, a);
    if target.Some? then RowRetired(RowAt(s, target.value), target.value, a) else map[]
  }

  /** How often the run retires sequence `n`. */
  function RetireCount(s: Replica, trace: seq<Action>, n: nat): nat
    decreases |trace|
  {
    if trace == [] then 0
    else (if n in Retired(s, trace[0]) then 1 else 0) + RetireCount(Step(s, trace[0]), trace[1..], n)
  }

  function Once(present: bool): nat {
    if present then 1 else 0
  }

  /** What a queued write asks for; retries only change its bookkeeping. */
  predicate SameIntent(w: QueuedWrite, w': QueuedWrite) {
    w' == w.(attempts := w'.attempts, superseded := w'.superseded)
  }

  lemma RowStepConserves(r: RowState, k: RowKey, next: nat, a: Action)
    requires next !in r.queue
    ensures RowStep(r, k, next, a).queue.Keys
         == r.queue.Keys - RowRetired(r, k, a).Keys + (if a.Write? && a.rowKey == k then {next} else {})
    ensures RowRetired(r, k, a).Keys <= r.queue.Keys
  {
  }

  lemma RowStepKeepsIntent(r: RowState, k: RowKey, next: nat, a: Action, n: nat)
    requires next !in r.queue && n in r.queue && n in RowStep(r, k, next, a).queue
    ensures var w, w' := r.queue[n], RowStep(r, k, next, a).queue[n];
            SameIntent(w, w') && w'.attempts == w.attempts + (if a == FailedSend(n) then 1 else 0)
  {
    if a.Ack? && a.n in r.queue {
      AckKeepsIntent(r, k, next, a, n);
    } else if a.Deliver? {
      ChangeKeepsIntent(r, k, next, a, n);
    }
  }

  /** Settling another write at most raises the superseded mark. */
  lemma AckKeepsIntent(r: RowState, k: RowKey, next: nat, a: Action, n: nat)
    requires a.Ack? && a.n in r.queue && n in r.queue && n in RowStep(r, k, next, a).queue
    ensures RowStep(r, k, next, a).queue == Retire(r.queue, a.n, a.committed)
    ensures RowStep(r, k, next, a).queue[n] == r.queue[n].(superseded := RowStep(r, k, next, a).queue[n].superseded)
  {
  }

  lemma ChangeKeepsIntent(r: RowState, k: RowKey, next: nat, a: Action, n: nat)
    requires a.Deliver? && n in r.queue && n in RowStep(r, k, next, a).queue
    ensures RowStep(r, k, next, a).queue[n] == r.queue[n].(superseded := RowStep(r, k, next, a).queue[n].superseded)
  {
  }

  lemma StepConserves(s: Replica, a: Action, n: nat)
    requires Valid(s)
    ensures Valid(Step(s, a)) && s.nextSeq <= Step(s, a).nextSeq <= s.nextSeq + 1
    ensures Once(n in s.queue) + Once(s.nextSeq <= n < Step(s, a).nextSeq)
         == Once(n in Step(s, a).queue) + Once(n in Retired(s, a))
    ensures n in s.queue && n in Step(s, a).queue ==> SameIntent(s.queue[n], Step(s, a).queue[n])
  {
    var target := Target(s, a);
    StepIsLocal(s, a, RowKey("", ""));
    if target.Some? {
      var k := target.value;
      var r := RowAt(s, k);
      StepIsLocal(s, a, k);
      RowStepConserves(r, k, s.nextSeq, a);
      var r' := RowAt(Step(s, a), k);
      if n in r.queue && n in r'.queue {
        RowStepKeepsIntent(r, k, s.nextSeq, a, n);
      }
      assert n in r.queue <==> n in s.queue && s.queue[n].rowKey == k;
      RowStepQueue(r, k, s.nextSeq, a);
      assert n in r'.queue <==> n in Step(s, a).queue && Step(s, a).queue[n].rowKey == k;
    }
  }

  /** Only a failed send counts as an attempt, and for no other write. */
  lemma StepCountsAttempts(s: Replica, a: Action, n: nat)
    requires Valid(s) && n in s.queue && n in Step(s, a).queue
    ensures Step(s, a).queue[n].attempts == s.queue[n].attempts + (if a == FailedSend(n) then 1 else 0)
  {
    var k := s.queue[n].rowKey;
    StepIsLocal(s, a, k);
    assert RowAt(Step(s, a), k).queue[n] == Step(s, a).queue[n] by {
      StepConserves(s, a, n);
    }
    RowStepKeepsIntent(RowAt(s, k), k, s.nextSeq, a, n);
  }

  /** Every sequence is issued once and never reused, and an issued write is either still
      queued or was retired exactly once, by its acknowledgement, its echo or a conflict. */
  lemma {:induction false} WritesAreConserved(s: Replica, trace: seq<Action>, n: nat)
    requires Valid(s)
    ensures s.nextSeq <= Run(s, trace).nextSeq
    ensures Once(n in s.queue) + Once(s.nextSeq <= n < Run(s, trace).nextSeq)
         == Once(n in Run(s, trace).queue) + RetireCount(s, trace, n)
    decreases |trace|
  {
    if trace != [] {
      StepConserves(s, trace[0], n);
      WritesAreConserved(Step(s, trace[0]), trace[1..], n);
    }
  }

  /** A write that is queued before and after a run still asks for the same thing. */
  lemma {:induction false} IntentIsKept(s: Replica, trace: seq<Action>, n: nat)
    requires Valid(s)
    requires n in s.queue && n in Run(s, trace).queue
    ensures SameIntent(s.queue[n], Run(s, trace).queue[n])
    decreases |trace|
  {
    if trace != [] {
      StepConserves(s, trace[0], n);
      var s' := Step(s, trace[0]);
      WritesAreConserved(s', trace[1..], n);
      assert n in s'.queue;
      IntentIsKept(s', trace[1..], n);
    }
  }

  /** A retired sequence stays retired, and nothing that names it later has an effect: a
      late acknowledgement cannot relabel the payload that replaced the write. */
  lemma {:induction false} RetiredIsFinal(s: Replica, trace: seq<Action>, n: nat, k: RowKey, e: ChangeEvent,
                                          committed: Version)
    requires Valid(s)
    requires 0 < n < s.nextSeq && n !in s.queue
    ensures var after := Run(s, trace);
            && n !in after.queue
            && Step(after, Ack(n, committed)) == after
            && Step(after, FailedSend(n)) == after
            && SettleAck(after, k, n, committed) == (after, Success(Missing))
            && SettlePessimistic(after, k, n, committed) == (after, Success(Missing))
            && AdoptEcho(after, e, n) == (after, Success(false))
            && BumpAttempts(after, n) == (after, 0)
  {
    WritesAreConserved(s, trace, n);
  }

  // ------------------------------------------------------- superseded bookkeeping

  datatype Commit = Commit(n: nat, version: Version)

  /** The commits of row `k` settled by an action: acknowledged or echo-adopted. */
  function RowSettled(r: RowState, k: RowKey, a: Action): set<Commit> {
    match a
    case Ack(n, committed) => if n in r.queue then {Commit(n, committed)} else {}
    case Deliver(e) =>
      if e.rowKey == k && FindEcho(r.queue, e).Some?
      then {Commit(FindEcho(r.queue, e).value, e.version)} else {}
    case _ => {}
  }

  function SettledLog(s: Replica, trace: seq<Action>, k: RowKey): set<Commit>
    decreases |trace|
  {
    if trace == [] then {}
    else RowSettled(RowAt(s, k), k, trace[0]) + SettledLog(Step(s, trace[0]), trace[1..], k)
  }

  /** Every queued write remembers a version at least that of every settled later write. */
  ghost predicate Remembers(queue: Queue, next: nat, log: set<Commit>) {
    && (forall c :: c in log ==> c.n < next)
    && forall n, c :: n in queue && c in log && n < c.n ==>
         queue[n].superseded.Some? && c.version <= queue[n].superseded.value
  }

  lemma RetireRemembers(queue: Queue, n: nat, version: Version, next: nat, log: set<Commit>)
    requires Remembers(queue, next, log) && n in queue && n < next
    ensures Remembers(Retire(queue, n, version), next, log + {Commit(n, version)})
  {
  }

  /** Writes that wait on, or are new, have nothing more to remember. */
  lemma WaitingRemembers(queue: Queue, next: nat, queue': Queue, next': nat, log: set<Commit>)
    requires Remembers(queue, next, log) && next <= next'
    requires forall n :: n in queue' ==> next <= n || (n in queue && queue'[n].superseded == queue[n].superseded)
    ensures Remembers(queue', next', log)
  {
  }

  lemma RowStepRemembers(r: RowState, k: RowKey, next: nat, a: Action, log: set<Commit>)
    requires Remembers(r.queue, next, log)
    requires forall n :: n in r.queue ==> n < next
    ensures Remembers(RowStep(r, k, next, a).queue, if a.Write? then next + 1 else next, log + RowSettled(r, k, a))
  {
    var settled := RowSettled(r, k, a);
    if a.Ack? && a.n in r.queue {
      RetireRemembers(r.queue, a.n, a.committed, next, log);
    } else if a.Deliver? && a.event.rowKey == k && FindEcho(r.queue, a.event).Some? {
      RetireRemembers(r.queue, FindEcho(r.queue, a.event).value, a.event.version, next, log);
    } else {
      assert log + settled == log;
      WaitingRemembers(r.queue, next, RowStep(r, k, next, a).queue, if a.Write? then next + 1 else next, log);
    }
  }

  lemma {:induction false} RunRemembers(s: Replica, trace: seq<Action>, k: RowKey, log: set<Commit>)
    requires Valid(s) && Remembers(RowAt(s, k).queue, s.nextSeq, log)
    ensures Remembers(RowAt(Run(s, trace), k).queue, Run(s, trace).nextSeq, log + SettledLog(s, trace, k))
    decreases |trace|
  {
    if trace == [] {
      assert log + {} == log;
    } else {
      var settled := RowSettled(RowAt(s, k), k, trace[0]);
      StepIsLocal(s, trace[0], k);
      StepConserves(s, trace[0], 0);
      RowStepRemembers(RowAt(s, k), k, s.nextSeq, trace[0], log);
      var r' := RowAt(Step(s, trace[0]), k);
      assert Remembers(r'.queue, Step(s, trace[0]).nextSeq, log + settled);
      RunRemembers(Step(s, trace[0]), trace[1..], k, log + settled);
      assert log + SettledLog(s, trace, k) == log + settled + SettledLog(Step(s, trace[0]), trace[1..], k);
    }
  }

  /** Same presence, payload and version: at most the dirty flag differs. */
  predicate SameValue(before: Option<Record>, after: Option<Record>) {
    if before.None? then after.None?
    else after.Some? && after.value.row == before.value.row && after.value.version == before.value.version
  }

  /** In every reachable state, the echo of a waiting write that a later settled write of
      the row reached or overtook retires the write and changes nothing else: it can
      neither downgrade the row nor resurrect it after a newer delete. */
  lemma {:induction false} OvertakenEchoIsInert(trace: seq<Action>, k: RowKey, e: ChangeEvent, n: nat, c: Commit)
    requires e.rowKey == k && FindEcho(RowAt(Run(FRESH, trace), k).queue, e) == Some(n)
    requires c in SettledLog(FRESH, trace, k) && n < c.n && e.version <= c.version
    ensures var r := RowAt(Run(FRESH, trace), k);
            var r' := RowApply(r, e).0;
            SameValue(r.rec, r'.rec) && r'.queue.Keys == r.queue.Keys - {n}
  {
    RunRemembers(FRESH, trace, k, {});
    assert {} + SettledLog(FRESH, trace, k) == SettledLog(FRESH, trace, k);
  }

  // --------------------------------------------------------- local edits are protected

  /** The event is the echo of the newest queued write, and nothing newer was settled. */
  predicate EchoesNewest(r: RowState, e: ChangeEvent) {
    var echo := FindEcho(r.queue, e);
    && echo.Some? && !HasNewer(r.queue, echo.value)
    && !(r.queue[echo.value].superseded.Some? && r.queue[echo.value].superseded.value >= e.version)
    && (r.rec.Some? ==> r.rec.value.version <= e.version)
  }

  /** The event is nobody's echo and strictly newer than what the pending edits build on: than
      the stored row or, where that is deleted, than the base of every queued write. */
  ghost predicate Overrules(r: RowState, e: ChangeEvent) {
    && FindEcho(r.queue, e).None?
    && (if r.rec.Some? then r.rec.value.version < e.version
        else forall n :: n in r.queue ==> r.queue[n].baseVersion < e.version)
  }

  predicate SameContent(before: Option<Record>, after: Option<Record>) {
    if before.None? then after.None? else after.Some? && after.value.row == before.value.row
  }

  function EchoedWrites(r: RowState, e: ChangeEvent): set<nat> {
    var echo := FindEcho(r.queue, e);
    if echo.Some? then {echo.value} else {}
  }

  /** While writes are queued, an incoming change takes the row over only as the exact echo
      of the newest one or by overruling and retiring all of them in the same step. In any
      other case payload and presence stay, and at most the echoed write is retired. */
  ghost predicate Protected(r: RowState, e: ChangeEvent, r': RowState, outcome: ApplyOutcome)
    requires r.queue != map[]
  {
    && outcome != Applied && outcome != Refreshed
    && (Overrules(r, e) <==> outcome == ConflictResolved)
    && (FindEcho(r.queue, e).Some? <==> outcome == EchoAdopted)
    && (if Overrules(r, e) then r' == RowState(ServerRecord(e, false), map[])
        else if EchoesNewest(r, e) then r'.rec == ServerRecord(e, r'.queue != map[])
        else SameContent(r.rec, r'.rec))
    && (outcome != ConflictResolved ==> r'.queue.Keys == r.queue.Keys - EchoedWrites(r, e))
  }

  lemma RowEditsAreProtected(r: RowState, e: ChangeEvent)
    requires r.queue != map[]
    ensures Protected(r, e, RowApply(r, e).0, RowApply(r, e).1)
  {
    var n :| n in r.queue && r.queue[n].baseVersion == LatestBase(r.queue);
  }

  /** The same of the whole replica, where other rows and their queued writes are not
      touched at all. */
  lemma LocalEditsAreProtected(s: Replica, e: ChangeEvent, other: RowKey)
    requires Valid(s) && RowAt(s, e.rowKey).queue != map[]
    ensures var (s', outcome) := ApplyChange(s, e);
            && Protected(RowAt(s, e.rowKey), e, RowAt(s', e.rowKey), outcome)
            && (other != e.rowKey ==> RowAt(s', other) == RowAt(s, other))
  {
    RowEditsAreProtected(RowAt(s, e.rowKey), e);
    DeliverIsApply(s, e);
    StepIsLocal(s, Deliver(e), e.rowKey);
    StepIsLocal(s, Deliver(e), other);
  }

  /** Write `n` is the newest of the row, and while it is queued the row shows it. */
  ghost predicate ShowsEdit(r: RowState, n: nat, value: Option<JsValue>) {
    n in r.queue ==>
      && (forall m :: m in r.queue ==> m <= n)
      && (if value.Some? then
            r.rec.Some? && r.rec.value.row == value.value && r.rec.value.dirty && !r.queue[n].strategy.Pessimistic?
          else
            r.rec.None? && r.queue[n].op.Delete? && NoUpsertOnAck(r.queue))
  }

  /** No queued write of the row would put a payload back when it is acknowledged. */
  ghost predicate NoUpsertOnAck(queue: Queue) {
    forall m :: m in queue ==> !(queue[m].strategy.Pessimistic? && queue[m].op.Upsert?)
  }

  ghost predicate NoWriteTo(trace: seq<Action>, k: RowKey) {
    forall a :: a in trace && a.Write? ==> a.rowKey != k
  }

  lemma RowStepShowsEdit(r: RowState, k: RowKey, next: nat, a: Action, n: nat, value: Option<JsValue>)
    requires ShowsEdit(r, n, value) && n < next
    requires a.Write? ==> a.rowKey != k
    ensures ShowsEdit(RowStep(r, k, next, a), n, value)
  {
    if a.Ack? {
      AckShowsEdit(r, k, next, a, n, value);
    } else if a.Deliver? {
      ChangeShowsEdit(r, k, next, a, n, value);
    }
  }

  lemma AckShowsEdit(r: RowState, k: RowKey, next: nat, a: Action, n: nat, value: Option<JsValue>)
    requires ShowsEdit(r, n, value) && a.Ack?
    ensures ShowsEdit(RowStep(r, k, next, a), n, value)
  {
  }

  lemma ChangeShowsEdit(r: RowState, k: RowKey, next: nat, a: Action, n: nat, value: Option<JsValue>)
    requires ShowsEdit(r, n, value) && a.Deliver?
    ensures ShowsEdit(RowStep(r, k, next, a), n, value)
  {
  }

  lemma {:induction false} RunShowsEdit(s: Replica, trace: seq<Action>, k: RowKey, n: nat, value: Option<JsValue>)
    requires Valid(s) && ShowsEdit(RowAt(s, k), n, value) && n < s.nextSeq
    requires NoWriteTo(trace, k)
    ensures ShowsEdit(RowAt(Run(s, trace), k), n, value)
    decreases |trace|
  {
    if trace != [] {
      StepIsLocal(s, trace[0], k);
      RowStepShowsEdit(RowAt(s, k), k, s.nextSeq, trace[0], n, value);
      RunShowsEdit(Step(s, trace[0]), trace[1..], k, n, value);
    }
  }

  /** No visible edit is lost: whatever else happens, for as long as the latest write to a
      row is queued the row shows exactly that write. A deletion needs that no earlier
      pessimistic upsert of the row is still waiting. */
  lemma {:induction false} LatestEditStaysVisible(s: Replica, a: Action, trace: seq<Action>)
    requires Valid(s) && a.Write? && !a.strategy.Pessimistic?
    requires a.op.Delete? ==> NoUpsertOnAck(RowAt(s, a.rowKey).queue)
    requires NoWriteTo(trace, a.rowKey)
    requires s.nextSeq in Run(s, [a] + trace).queue
    ensures var after := Run(s, [a] + trace);
            if a.op.Delete? then a.rowKey !in after.rows
            else a.rowKey in after.rows && after.rows[a.rowKey].dirty &&
                 after.rows[a.rowKey].row == after.queue[s.nextSeq].payload == Step(s, a).queue[s.nextSeq].payload
  {
    var k, n := a.rowKey, s.nextSeq;
    var value := if a.op.Delete? then None else Some(LocalValue(RowAt(s, k).rec, a));
    assert ([a] + trace)[1..] == trace;
    StepIsLocal(s, a, k);
    assert ShowsEdit(RowAt(Step(s, a), k), n, value);
    RunShowsEdit(Step(s, a), trace, k, n, value);
    var after := Run(s, [a] + trace);
    WritesAreConserved(Step(s, a), trace, n);
    IntentIsKept(Step(s, a), trace, n);
    assert n in RowAt(after, k).queue;
  }

  /** However a run goes on after the deletion `a`, as long as the deletion is queued and no
      newer write is made to the row, the row is absent. */
  ghost predicate StaysDeleted(s: Replica, a: Action)
    requires a.Write?
  {
    forall trace: seq<Action> :: NoWriteTo(trace, a.rowKey) && s.nextSeq in Run(s, [a] + trace).queue ==>
      a.rowKey !in Run(s, [a] + trace).rows
  }

  /** A visible deletion stays visible while it is queued if and only if no earlier
      pessimistic upsert of the row is waiting when it is made. */
  lemma DeletionStaysExactly(s: Replica, a: Action)
    requires Valid(s) && a.Write? && a.op.Delete? && !a.strategy.Pessimistic?
    ensures StaysDeleted(s, a) <==> NoUpsertOnAck(RowAt(s, a.rowKey).queue)
  {
    if NoUpsertOnAck(RowAt(s, a.rowKey).queue) {
      forall trace: seq<Action> | NoWriteTo(trace, a.rowKey) && s.nextSeq in Run(s, [a] + trace).queue
        ensures a.rowKey !in Run(s, [a] + trace).rows
      {
        LatestEditStaysVisible(s, a, trace);
      }
    } else {
      var m :| m in RowAt(s, a.rowKey).queue
               && RowAt(s, a.rowKey).queue[m].strategy.Pessimistic? && RowAt(s, a.rowKey).queue[m].op.Upsert?;
      WaitingUpsertRevives(s, a, m, 0);
      var trace := [Ack(m, 0)];
      assert NoWriteTo(trace, a.rowKey);
    }
  }

  /** Acknowledging a pessimistic upsert that waits puts the deleted row back. */
  lemma {:induction false} WaitingUpsertRevives(s: Replica, a: Action, m: nat, committed: Version)
    requires Valid(s) && a.Write? && a.op.Delete? && !a.strategy.Pessimistic?
    requires m in s.queue && s.queue[m].rowKey == a.rowKey
    requires s.queue[m].strategy.Pessimistic? && s.queue[m].op.Upsert?
    ensures var after := Run(s, [a] + [Ack(m, committed)]);
            && s.nextSeq in after.queue && a.rowKey in after.rows
            && after.rows[a.rowKey] == Record(s.queue[m].payload, committed, true)
  {
    var k, b := a.rowKey, Ack(m, committed);
    var s' := Step(s, a);
    assert ([a] + [b])[1..] == [b] && [b][1..] == [];
    assert Run(s, [a] + [b]) == Run(s', [b]);
    assert Run(s', [b]) == Step(s', b);
    StepIsLocal(s, a, k);
    StepIsLocal(s', b, k);
    var r, r' := RowAt(s, k), RowAt(s', k);
    assert r'.queue[m] == r.queue[m] == s.queue[m];
    assert s.nextSeq in Retire(r'.queue, m, committed);
    assert RowAt(Step(s', b), k) == RowPessimistic(r', m, committed).0;
  }

  /** A run that shows it: a pessimistic upsert still waiting when its row is deleted puts the
      row back when it is acknowledged, the deletion still queued. */
  lemma PessimisticAckRecreatesRow(k: RowKey, row: JsValue, committed: Version)
    ensures var trace := [Write(k, Upsert, row, false, Pessimistic, "a"),
                          Write(k, Delete, Null, false, Optimistic, "b"),
                          Ack(1, committed)];
            var after := Run(FRESH, trace);
            2 in after.queue && k in after.rows && after.rows[k] == Record(row, committed, true)
  {
    var a0, a1, a2 := Write(k, Upsert, row, false, Pessimistic, "a"),
                      Write(k, Delete, Null, false, Optimistic, "b"), Ack(1, committed);
    RunThree(FRESH, a0, a1, a2);
    var s1 := Step(FRESH, a0);
    var s2 := Step(s1, a1);
    StepIsLocal(FRESH, a0, k);
    StepIsLocal(s1, a1, k);
    StepIsLocal(s2, a2, k);
    assert RowAt(s2, k).queue.Keys == {1, 2};
    assert 2 in RowAt(Step(s2, a2), k).queue;
  }

  /** `settleAck` takes the same decision as the core's `on_ack`, and moves no payload. */
  lemma AckMatchesCore(r: RowState, n: nat, committed: Version)
    requires n in r.queue && r.rec.Some?
    ensures var (r', outcome) := RowAck(r, n, committed);
            var local := LocalRow(r.rec.value.version, r.rec.value.dirty);
            && outcome == OnAck(local, committed)
            && SameContent(r.rec, r'.rec)
            && r'.rec.value.version == (if outcome.Adopt? then outcome.version else r.rec.value.version)
            && (r'.rec.value.dirty <==> r.queue.Keys != {n})
  {
    var (r', outcome) := RowAck(r, n, committed);
    assert r'.queue.Keys == r.queue.Keys - {n};
    assert r'.queue == map[] <==> r'.queue.Keys == {};
  }
}
