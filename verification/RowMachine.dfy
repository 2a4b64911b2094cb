/** One row of the replica together with its queued writes: the meaning of every store
    transaction and client decision, as functions of the state they start from
    (langs/typescript/src/store.mjs, langs/typescript/src/client.mjs). */
module RowMachine {
  import opened Wrappers
  import opened Merge
  import opened ReconcileCore

  datatype Record = Record(row: JsValue, version: Version, dirty: bool)

  /** The queued writes of a row, by queue sequence. */
  type Queue = map<nat, QueuedWrite>

  datatype RowState = RowState(rec: Option<Record>, queue: Queue)

  function Meta(rec: Option<Record>): Option<LocalRow> {
    if rec.Some? then Some(LocalRow(rec.value.version, rec.value.dirty)) else None
  }

  /** What committing an event leaves in the store. */
  function ServerRecord(e: ChangeEvent, dirty: bool): Option<Record> {
    if e.op.Delete? then None else Some(Record(e.row, e.version, dirty))
  }

  // ------------------------------------------------------------- transactions

  /** The write after a later one of its row was settled at a version. */
  function Raised(write: QueuedWrite, version: Version): QueuedWrite {
    write.(superseded := Raise(write.superseded, version))
  }

  /** Raise every write below sequence `n`, in order. */
  function RaiseBelow(queue: Queue, n: nat, version: Version): (raised: Queue)
    ensures raised.Keys == queue.Keys
    ensures forall m :: m in queue ==> raised[m] == if m < n then Raised(queue[m], version) else queue[m]
  {
    if n == 0 then queue
    else
      var raised := RaiseBelow(queue, n - 1, version);
      if n - 1 in queue then raised[n - 1 := Raised(queue[n - 1], version)] else raised
  }

  /** Retire write `n`, recording its commit version on every earlier write. */
  function Retire(queue: Queue, n: nat, version: Version): (retired: Queue)
    ensures retired.Keys == queue.Keys - {n}
    ensures forall m :: m in queue && m != n ==>
              retired[m] == if m < n then Raised(queue[m], version) else queue[m]
  {
    RaiseBelow(queue, n, version) - {n}
  }

  predicate HasNewer(queue: Queue, n: nat) {
    exists m :: m in queue && n < m
  }

  function Enqueued(r: RowState, n: nat, write: QueuedWrite, row: JsValue): RowState {
    var queue := r.queue[n := write];
    if write.strategy.Pessimistic? then r.(queue := queue)
    else RowState(if write.op.Delete? then None else Some(Record(row, write.baseVersion, true)), queue)
  }

  function RowAck(r: RowState, n: nat, committed: Version): (RowState, AckOutcome)
    requires n in r.queue
  {
    var queue := Retire(r.queue, n, committed);
    match r.rec
    case None => (RowState(None, queue), Superseded)
    case Some(rec) =>
      var version := if rec.version <= committed then committed else rec.version;
      (RowState(Some(Record(rec.row, version, queue != map[])), queue),
       if rec.version <= committed then Adopt(committed) else Superseded)
  }

  function RowPessimistic(r: RowState, n: nat, committed: Version): (RowState, AckOutcome)
    requires n in r.queue
  {
    var queue := Retire(r.queue, n, committed);
    var write := r.queue[n];
    if r.rec.Some? && r.rec.value.dirty && HasNewer(r.queue, n) then
      (RowState(Some(r.rec.value.(version := Max(r.rec.value.version, committed), dirty := true)), queue),
       Superseded)
    else if write.op.Delete? then
      (RowState(None, queue), Adopt(committed))
    else
      (RowState(Some(Record(write.payload, committed, queue != map[])), queue), Adopt(committed))
  }

  function RowEcho(r: RowState, e: ChangeEvent, n: nat): RowState
    requires n in r.queue
  {
    var queue := Retire(r.queue, n, e.version);
    var echo := r.queue[n];
    var pending := queue != map[];
    if echo.superseded.Some? && echo.superseded.value >= e.version then
      RowState(if r.rec.Some? then Some(r.rec.value.(dirty := pending)) else None, queue)
    else if !HasNewer(r.queue, n) then
      if r.rec.None? || e.version >= r.rec.value.version then RowState(ServerRecord(e, pending), queue)
      else RowState(Some(r.rec.value.(dirty := pending)), queue)
    else
      RowState(if r.rec.Some? then Some(r.rec.value.(version := Max(r.rec.value.version, e.version), dirty := true))
               else None,
               queue)
  }

  /** Conflict resolution, `remaining` being the row's writes that are not stale. */
  function RowConflict(rec: Option<Record>, remaining: Queue, e: ChangeEvent): RowState {
    if remaining == map[] then RowState(ServerRecord(e, false), remaining)
    else RowState(if rec.Some? then Some(rec.value.(version := Max(rec.value.version, e.version), dirty := true))
                  else None,
                  remaining)
  }

  function RowBump(r: RowState, n: nat): RowState
    requires n in r.queue
  {
    r.(queue := r.queue[n := r.queue[n].(attempts := r.queue[n].attempts + 1)])
  }

  // ---------------------------------------------------------- client decisions

  /** The write whose echo the event is, first in queue order. */
  function FindEcho(queue: Queue, e: ChangeEvent): (found: Option<nat>)
    ensures found.Some? ==> found.value in queue && IsEchoOf(queue[found.value], e)
    ensures found.Some? ==> forall m :: m in queue && IsEchoOf(queue[m], e) ==> found.value <= m
    ensures found.None? ==> forall m :: m in queue ==> !IsEchoOf(queue[m], e)
  {
    var echoes: set<nat> := set m | m in queue && IsEchoOf(queue[m], e);
    assert forall m :: m in queue && IsEchoOf(queue[m], e) ==> m in echoes;
    if echoes == {} then None else Some(Least(echoes))
  }

  function Bases(queue: Queue): set<Version> {
    set m | m in queue :: queue[m].baseVersion
  }

  /** The latest base version of a non-empty queue. */
  function LatestBase(queue: Queue): (v: Version)
    requires queue != map[]
    ensures v in Bases(queue) && forall m :: m in queue ==> queue[m].baseVersion <= v
  {
    LatestBaseExists(queue);
    var v: Version :| v in Bases(queue) && forall b :: b in Bases(queue) ==> b <= v;
    assert forall m :: m in queue ==> queue[m].baseVersion in Bases(queue);
    v
  }

  lemma {:induction false} LatestBaseExists(queue: Queue)
    requires queue != map[]
    ensures exists v: Version :: v in Bases(queue) && forall b :: b in Bases(queue) ==> b <= v
    decreases |queue|
  {
    var n :| n in queue;
    var rest := queue - {n};
    assert queue.Keys == rest.Keys + {n};
    var base := queue[n].baseVersion;
    BasesMore(queue, n);
    if rest == map[] {
      assert Bases(queue) == {base};
    } else {
      LatestBaseExists(rest);
      var v: Version :| v in Bases(rest) && forall b :: b in Bases(rest) ==> b <= v;
      assert Max(v, base) in Bases(queue) && forall b :: b in Bases(queue) ==> b <= Max(v, base);
    }
  }

  lemma BasesMore(queue: Queue, n: nat)
    requires n in queue
    ensures Bases(queue) == Bases(queue - {n}) + {queue[n].baseVersion}
  {
    assert forall m | m in queue :: m == n || (m in queue - {n} && (queue - {n})[m] == queue[m]);
  }

  /** The local state an event is reconciled against: pending intent makes the row dirty
      and, when the row itself is absent, supplies its version. */
  function ReconcileLocal(r: RowState): Option<LocalRow> {
    if r.queue == map[] then Meta(r.rec)
    else Some(LocalRow(if r.rec.Some? then r.rec.value.version else LatestBase(r.queue), true))
  }

  datatype ApplyOutcome = Applied | EchoAdopted | ConflictResolved | Refreshed | Ignored

  function RowApply(r: RowState, e: ChangeEvent): (RowState, ApplyOutcome) {
    var echo := FindEcho(r.queue, e);
    if echo.Some? then (RowEcho(r, e, echo.value), EchoAdopted)
    else
      match Reconcile(ReconcileLocal(r), e)
      case Apply => (r.(rec := ServerRecord(e, false)), Applied)
      case Conflict => (RowConflict(r.rec, map[], e), ConflictResolved)
      case Ignore(reason) =>
        if reason.AlreadyApplied? && r.queue == map[] && (r.rec.None? || !r.rec.value.dirty)
        then (r.(rec := ServerRecord(e, false)), Refreshed)
        else (r, Ignored)
  }

  // ------------------------------------------------------------------- actions

  /** One atomic local transition of a client. Sends, acknowledgements, echoes and
      third-party changes arrive in any order. */
  datatype Action =
    | Write(rowKey: RowKey, op: ChangeOp, row: JsValue, merge: bool, strategy: Strategy, key: string)
    | Ack(n: nat, committed: Version)
    | FailedSend(n: nat)
    | Deliver(event: ChangeEvent)
    | Prune(rowKey: RowKey)

  /** The whole-row value a write stores and sends. */
  function LocalValue(rec: Option<Record>, a: Action): JsValue
    requires a.Write?
  {
    if a.merge && !a.op.Delete? then DeepMerge(if rec.Some? then rec.value.row else Null, a.row) else a.row
  }

  function NewWrite(rec: Option<Record>, a: Action): QueuedWrite
    requires a.Write?
  {
    QueuedWrite(a.rowKey, a.op, if a.op.Delete? then Null else LocalValue(rec, a),
                if rec.Some? then rec.value.version else 0, Some(a.key), a.strategy, 0, None)
  }

  /** The effect of an action on row `k`, `next` being the next queue sequence. */
  function RowStep(r: RowState, k: RowKey, next: nat, a: Action): RowState {
    match a
    case Write(rowKey, _, _, _, _, _) =>
      if rowKey != k then r else Enqueued(r, next, NewWrite(r.rec, a), LocalValue(r.rec, a))
    case Ack(n, committed) =>
      if n !in r.queue then r
      else if r.queue[n].strategy.Pessimistic? then RowPessimistic(r, n, committed).0
      else RowAck(r, n, committed).0
    case FailedSend(n) =>
      if n !in r.queue then r else RowBump(r, n)
    case Deliver(e) =>
      if e.rowKey != k then r else RowApply(r, e).0
    case Prune(rowKey) =>
      if rowKey == k && r.rec.Some? && !r.rec.value.dirty then r.(rec := None) else r
  }
}
