/** The whole replica as a keyed store: rows, the durable write queue and the catch-up
    cursors. Every transaction is the row transaction of RowMachine on one row. */
module KeyedStore {
  import opened Wrappers
  import opened Merge
  import opened ReconcileCore
  import opened RowMachine

  datatype Replica = Replica(
    rows: map<RowKey, Record>, queue: map<nat, QueuedWrite>, nextSeq: nat, cursors: map<string, int>)

  /** A freshly created database. */
  const FRESH := Replica(map[], map[], 1, map[])

  datatype StoreError = IdentityChanged | InvalidCursor | CursorMovedBackwards | TableNotConfigured

  /** Queue sequences are issued in increasing order from 1, cursors are safe integers. */
  ghost predicate Valid(s: Replica) {
    && 0 < s.nextSeq && (forall n :: n in s.queue ==> 0 < n < s.nextSeq)
    && forall scope :: scope in s.cursors ==> 0 <= s.cursors[scope] <= MAX_SAFE
  }

  function RowAt(s: Replica, k: RowKey): RowState {
    RowState(if k in s.rows then Some(s.rows[k]) else None,
             s.queue - (set n | n in s.queue && s.queue[n].rowKey != k))
  }

  /** Replace row `k` and its queued writes. */
  function WithRow(s: Replica, k: RowKey, r: RowState): Replica {
    s.(rows := if r.rec.Some? then s.rows[k := r.rec.value] else s.rows - {k},
       queue := s.queue - (set n | n in s.queue && s.queue[n].rowKey == k) + r.queue)
  }

  ghost predicate OwnQueue(r: RowState, k: RowKey) {
    forall n :: n in r.queue ==> r.queue[n].rowKey == k
  }

  // ------------------------------------------------------------- transactions

  function Enqueue(s: Replica, write: QueuedWrite): (Replica, nat) {
    (s.(queue := s.queue[s.nextSeq := write.(attempts := 0)], nextSeq := s.nextSeq + 1), s.nextSeq)
  }

  function EnqueueOptimistic(s: Replica, write: QueuedWrite, row: JsValue): (Replica, nat) {
    var stored := write.(attempts := 0);
    var rec := if write.op.Delete? then None else Some(Record(row, write.baseVersion, true));
    var r := RowState(rec, RowAt(s, write.rowKey).queue[s.nextSeq := stored]);
    (WithRow(s, write.rowKey, r).(nextSeq := s.nextSeq + 1), s.nextSeq)
  }

  function SettleAck(s: Replica, k: RowKey, n: nat, committed: Version): (Replica, Result<AckOutcome, StoreError>) {
    if n !in s.queue then (s, Success(Missing))
    else if s.queue[n].rowKey != k then (s, Failure(IdentityChanged))
    else
      var (r, outcome) := RowAck(RowAt(s, k), n, committed);
      (WithRow(s, k, r), Success(outcome))
  }

  function SettlePessimistic(s: Replica, k: RowKey, n: nat, committed: Version)
    : (Replica, Result<AckOutcome, StoreError>)
  {
    if n !in s.queue then (s, Success(Missing))
    else if s.queue[n].rowKey != k then (s, Failure(IdentityChanged))
    else
      var (r, outcome) := RowPessimistic(RowAt(s, k), n, committed);
      (WithRow(s, k, r), Success(outcome))
  }

  function AdoptEcho(s: Replica, e: ChangeEvent, n: nat): (Replica, Result<bool, StoreError>) {
    if n !in s.queue then (s, Success(false))
    else if s.queue[n].rowKey != e.rowKey then (s, Failure(IdentityChanged))
    else (WithRow(s, e.rowKey, RowEcho(RowAt(s, e.rowKey), e, n)), Success(true))
  }

  function ResolveConflict(s: Replica, e: ChangeEvent, stale: set<nat>): Replica {
    var s' := s.(queue := s.queue - stale);
    var r := RowAt(s', e.rowKey);
    WithRow(s', e.rowKey, RowConflict(r.rec, r.queue, e))
  }

  function BumpAttempts(s: Replica, n: nat): (Replica, nat) {
    if n !in s.queue then (s, 0)
    else
      var bumped := s.queue[n].(attempts := s.queue[n].attempts + 1);
      (s.(queue := s.queue[n := bumped]), bumped.attempts)
  }

  function SetCursor(s: Replica, cursor: int, scope: string): (Replica, Result<int, StoreError>) {
    if cursor < 0 || cursor > MAX_SAFE then (s, Failure(InvalidCursor))
    else if scope in s.cursors && cursor < s.cursors[scope] then (s, Failure(CursorMovedBackwards))
    else (s.(cursors := s.cursors[scope := cursor]), Success(cursor))
  }

  function GetCursor(s: Replica, scope: string): int {
    if scope in s.cursors then s.cursors[scope] else 0
  }

  // ---------------------------------------------------------------- the client

  function ApplyChange(s: Replica, e: ChangeEvent): (Replica, ApplyOutcome) {
    var (r, outcome) := RowApply(RowAt(s, e.rowKey), e);
    (WithRow(s, e.rowKey, r), outcome)
  }

  /** The row an action works on, if there is one. */
  function Target(s: Replica, a: Action): Option<RowKey> {
    match a
    case Write(k, _, _, _, _, _) => Some(k)
    case Ack(n, _) => if n in s.queue then Some(s.queue[n].rowKey) else None
    case FailedSend(n) => if n in s.queue then Some(s.queue[n].rowKey) else None
    case Deliver(e) => Some(e.rowKey)
    case Prune(k) => Some(k)
  }

  function Step(s: Replica, a: Action): Replica {
    var target := Target(s, a);
    if target.None? then s
    else
      var k := target.value;
      WithRow(s, k, RowStep(RowAt(s, k), k, s.nextSeq, a))
        .(nextSeq := if a.Write? then s.nextSeq + 1 else s.nextSeq)
  }

  function Run(s: Replica, trace: seq<Action>): Replica
    decreases |trace|
  {
    if trace == [] then s else Run(Step(s, trace[0]), trace[1..])
  }

  // ------------------------------------------------------------------ locality

  /** Writing row `k` sets that row and no other. */
  lemma RowLens(s: Replica, k: RowKey, r: RowState, other: RowKey)
    requires OwnQueue(r, k)
    requires forall n :: n in r.queue && n in s.queue ==> s.queue[n].rowKey == k
    ensures RowAt(WithRow(s, k, r), other) == if other == k then r else RowAt(s, other)
  {
    var q := RowAt(WithRow(s, k, r), other).queue;
    if other == k {
      assert q == r.queue;
    } else {
      assert q == RowAt(s, other).queue;
    }
  }

  /** Writing back the row that was read changes nothing. */
  lemma RowPutBack(s: Replica, k: RowKey)
    ensures WithRow(s, k, RowAt(s, k)) == s
  {
    var same := WithRow(s, k, RowAt(s, k));
    assert same.rows == s.rows;
    assert same.queue == s.queue;
  }

  /** The writes a row step leaves queued: some of those queued before, and the new one. */
  lemma RowStepQueue(r: RowState, k: RowKey, next: nat, a: Action)
    requires OwnQueue(r, k)
    ensures OwnQueue(RowStep(r, k, next, a), k)
    ensures RowStep(r, k, next, a).queue.Keys
         <= r.queue.Keys + (if a.Write? && a.rowKey == k then {next} else {})
  {
  }

  /** Each step acts on every row as the row machine says: on its target as `RowStep`,
      and on all other rows and their queued writes not at all. */
  lemma {:induction false} StepIsLocal(s: Replica, a: Action, k: RowKey)
    requires Valid(s)
    ensures Valid(Step(s, a))
    ensures RowAt(Step(s, a), k) == RowStep(RowAt(s, k), k, s.nextSeq, a)
    ensures Target(s, a) != Some(k) ==> RowAt(Step(s, a), k) == RowAt(s, k)
    ensures Step(s, a).cursors == s.cursors
  {
    var target := Target(s, a);
    if target.Some? {
      var t := target.value;
      RowStepQueue(RowAt(s, t), t, s.nextSeq, a);
      RowLens(s, t, RowStep(RowAt(s, t), t, s.nextSeq, a), k);
      var r := WithRow(s, t, RowStep(RowAt(s, t), t, s.nextSeq, a));
      assert RowAt(Step(s, a), k) == RowAt(r, k);
    }
  }

  lemma {:induction false} RunIsValid(s: Replica, trace: seq<Action>)
    requires Valid(s)
    ensures Valid(Run(s, trace))
    decreases |trace|
  {
    if trace != [] {
      StepIsLocal(s, trace[0], RowKey("", ""));
      RunIsValid(Step(s, trace[0]), trace[1..]);
    }
  }

  lemma {:induction false} RunAppend(s: Replica, first: seq<Action>, second: seq<Action>)
    ensures Run(s, first + second) == Run(Run(s, first), second)
    decreases |first|
  {
    if first == [] {
      assert first + second == second;
    } else {
      assert (first + second)[1..] == first[1..] + second;
      RunAppend(Step(s, first[0]), first[1..], second);
    }
  }

  /** A run as one row sees it. */
  function RowRun(r: RowState, k: RowKey, next: nat, trace: seq<Action>): RowState
    decreases |trace|
  {
    if trace == [] then r
    else RowRun(RowStep(r, k, next, trace[0]), k, if trace[0].Write? then next + 1 else next, trace[1..])
  }

  /** Each row runs by itself: what a run makes of it depends on the row alone. */
  lemma {:induction false} RunIsLocal(s: Replica, trace: seq<Action>, k: RowKey)
    requires Valid(s)
    ensures RowAt(Run(s, trace), k) == RowRun(RowAt(s, k), k, s.nextSeq, trace)
    decreases |trace|
  {
    if trace != [] {
      StepIsLocal(s, trace[0], k);
      RunIsLocal(Step(s, trace[0]), trace[1..], k);
    }
  }

  lemma {:induction false} RowRunFour(r: RowState, k: RowKey, a: Action, b: Action, c: Action, d: Action)
    requires a.Write? && b.Write? && !c.Write?
    ensures RowRun(r, k, 1, [a, b, c, d])
         == RowStep(RowStep(RowStep(RowStep(r, k, 1, a), k, 2, b), k, 3, c), k, 3, d)
  {
    assert [a, b, c, d][1..] == [b, c, d] && [b, c, d][1..] == [c, d] && [c, d][1..] == [d] && [d][1..] == [];
    var r' := RowStep(RowStep(r, k, 1, a), k, 2, b);
    assert RowRun(r, k, 1, [a, b, c, d]) == RowRun(r', k, 3, [c, d]);
    assert RowRun(RowStep(r', k, 3, c), k, 3, [d]) == RowStep(RowStep(r', k, 3, c), k, 3, d);
  }

  lemma {:induction false} RowRunFive(r: RowState, k: RowKey, a: Action, b: Action, c: Action, d: Action, e: Action)
    requires a.Write? && b.Write? && !c.Write? && !d.Write?
    ensures RowRun(r, k, 1, [a, b, c, d, e])
         == RowStep(RowStep(RowStep(RowStep(RowStep(r, k, 1, a), k, 2, b), k, 3, c), k, 3, d), k, 3, e)
  {
    var r' := RowStep(RowStep(r, k, 1, a), k, 2, b);
    assert [a, b, c, d, e][1..] == [b, c, d, e] && [b, c, d, e][1..] == [c, d, e] && [c, d, e][1..] == [d, e];
    assert RowRun(r, k, 1, [a, b, c, d, e]) == RowRun(r', k, 3, [c, d, e]);
    assert [d, e][1..] == [e] && [e][1..] == [];
    var r'' := RowStep(RowStep(r', k, 3, c), k, 3, d);
    assert RowRun(RowStep(r', k, 3, c), k, 3, [d, e]) == RowRun(r'', k, 3, [e]);
    assert RowRun(r'', k, 3, [e]) == RowStep(r'', k, 3, e);
  }

  lemma {:induction false} RunThree(s: Replica, a: Action, b: Action, c: Action)
    ensures Run(s, [a, b, c]) == Step(Step(Step(s, a), b), c)
  {
    assert [a, b, c][1..] == [b, c] && [b, c][1..] == [c] && [c][1..] == [];
    assert Run(Step(Step(s, a), b), [c]) == Step(Step(Step(s, a), b), c);
    assert Run(Step(s, a), [b, c]) == Run(Step(Step(s, a), b), [c]);
  }

  // ------------------------------------ the actions are the store's transactions

  /** `write()` is one enqueue transaction of its strategy. */
  lemma WriteIsEnqueue(s: Replica, a: Action)
    requires a.Write?
    ensures var rec := RowAt(s, a.rowKey).rec;
            Step(s, a) == if a.strategy.Pessimistic? then Enqueue(s, NewWrite(rec, a)).0
                          else EnqueueOptimistic(s, NewWrite(rec, a), LocalValue(rec, a)).0
  {
    var write := NewWrite(RowAt(s, a.rowKey).rec, a);
    assert write.(attempts := 0) == write;
    if a.strategy.Pessimistic? {
      var s' := Step(s, a);
      assert s'.queue == Enqueue(s, write).0.queue;
      assert s'.rows == s.rows;
    }
  }

  /** An acknowledgement is one settlement of the queued write's own strategy. */
  lemma AckIsSettlement(s: Replica, n: nat, k: RowKey, committed: Version)
    requires n in s.queue ==> s.queue[n].rowKey == k
    ensures Step(s, Ack(n, committed))
         == if n in s.queue && s.queue[n].strategy.Pessimistic? then SettlePessimistic(s, k, n, committed).0
            else SettleAck(s, k, n, committed).0
  {
  }

  lemma FailedSendIsBump(s: Replica, n: nat)
    ensures Step(s, FailedSend(n)) == BumpAttempts(s, n).0
  {
    if n in s.queue {
      var s' := Step(s, FailedSend(n));
      assert s'.queue == BumpAttempts(s, n).0.queue;
      assert s'.rows == s.rows;
    }
  }

  lemma DeliverIsApply(s: Replica, e: ChangeEvent)
    ensures Step(s, Deliver(e)) == ApplyChange(s, e).0
  {
  }
}
