/** What each transition of the client does, told in the stored records themselves: the law
    of a write, of an incoming change, of an acknowledgement and of the cursor. */
module Transitions {
  import opened Wrappers
  import opened Merge
  import opened ReconcileCore
  import opened RowMachine
  import opened KeyedStore
  import opened Guarantees

  /** Write `n` is queued for row `k`. */
  predicate Waits(s: Replica, k: RowKey, n: nat) {
    n in s.queue && s.queue[n].rowKey == k
  }

  ghost predicate NoneWaits(s: Replica, k: RowKey) {
    forall n :: n in s.queue ==> s.queue[n].rowKey != k
  }

  /** The event answers the write: by the write's token if it has one, by the version that
      follows its base if it has none. */
  predicate Answers(write: QueuedWrite, e: ChangeEvent) {
    && write.rowKey == e.rowKey && write.op == e.op
    && match write.key
       case Some(key) => e.writeKey == Some(key)
       case None => e.version == write.baseVersion + 1
  }

  /** No queued write is answered by the event. */
  ghost predicate Foreign(s: Replica, e: ChangeEvent) {
    forall n :: n in s.queue ==> !Answers(s.queue[n], e)
  }

  /** The rows after the server's row has replaced the local one, or removed it. */
  function ServerRows(rows: map<RowKey, Record>, e: ChangeEvent, dirty: bool): map<RowKey, Record> {
    match e.op
    case Upsert => rows[e.rowKey := Record(e.row, e.version, dirty)]
    case Delete => rows - {e.rowKey}
  }

  lemma SameQueue(s: Replica, k: RowKey, rec: Option<Record>)
    ensures WithRow(s, k, RowState(rec, RowAt(s, k).queue)).queue == s.queue
  {
    RowPutBack(s, k);
  }

  lemma IdleRow(s: Replica, k: RowKey, rec: Option<Record>)
    requires NoneWaits(s, k)
    ensures RowAt(s, k).queue == map[]
    ensures WithRow(s, k, RowState(rec, map[]))
         == s.(rows := if rec.Some? then s.rows[k := rec.value] else s.rows - {k})
  {
    assert RowAt(s, k).queue == map[];
    SameQueue(s, k, rec);
  }

  // ---------------------------------------------------------------- incoming changes

  lemma ForeignIsNoEcho(s: Replica, e: ChangeEvent)
    requires Foreign(s, e)
    ensures FindEcho(RowAt(s, e.rowKey).queue, e).None?
  {
    var q := RowAt(s, e.rowKey).queue;
    forall n | n in q ensures !IsEchoOf(q[n], e) {
      assert !Answers(s.queue[n], e);
    }
  }

  /** A change of a row for which nothing is queued: an absent row takes an upsert, a present
      one takes every later version and, unless it is dirty, its own version again. Deleting
      what is absent counts as a refresh and changes nothing. */
  lemma ChangeOfIdleRow(s: Replica, e: ChangeEvent)
    requires NoneWaits(s, e.rowKey)
    ensures var (s', outcome) := ApplyChange(s, e);
            if e.rowKey !in s.rows then
              (s', outcome) == if e.op.Upsert? then (s.(rows := ServerRows(s.rows, e, false)), Applied)
                               else (s, Refreshed)
            else
              var rec := s.rows[e.rowKey];
              if e.version > rec.version then
                s' == s.(rows := ServerRows(s.rows, e, false))
                && outcome == if rec.dirty then ConflictResolved else Applied
              else if e.version == rec.version && !rec.dirty then
                s' == s.(rows := ServerRows(s.rows, e, false)) && outcome == Refreshed
              else s' == s && outcome == Ignored
  {
    RowPutBack(s, e.rowKey);
    IdleRow(s, e.rowKey, ServerRecord(e, false));
    assert FindEcho(RowAt(s, e.rowKey).queue, e).None?;
  }

  /** The change is newer than what the queued writes of its row are based on: than the stored
      row or, where that is deleted, than every queued write's base version. */
  ghost predicate NewerThanBase(s: Replica, e: ChangeEvent) {
    if e.rowKey in s.rows then s.rows[e.rowKey].version < e.version
    else forall n :: Waits(s, e.rowKey, n) ==> s.queue[n].baseVersion < e.version
  }

  /** A foreign change of a row with queued writes: it either overrules them all, and they
      are dropped for the server's row, or it leaves the whole replica as it is. */
  lemma ForeignChange(s: Replica, e: ChangeEvent, n: nat)
    requires Foreign(s, e) && Waits(s, e.rowKey, n)
    ensures var (s', outcome) := ApplyChange(s, e);
            if NewerThanBase(s, e) then
              && outcome == ConflictResolved
              && s'.rows == ServerRows(s.rows, e, false)
              && s'.queue.Keys == (set m | m in s.queue && s.queue[m].rowKey != e.rowKey)
              && (forall m :: m in s'.queue ==> s'.queue[m] == s.queue[m])
              && s'.nextSeq == s.nextSeq && s'.cursors == s.cursors
            else s' == s && outcome == Ignored
  {
    var k := e.rowKey;
    ForeignIsNoEcho(s, e);
    assert n in RowAt(s, k).queue;
    RowPutBack(s, k);
    if k !in s.rows {
      BaseIsLatest(s, k, e.version);
    }
  }

  /** The latest base version is exceeded exactly when every one is. */
  lemma BaseIsLatest(s: Replica, k: RowKey, v: Version)
    requires RowAt(s, k).queue != map[]
    ensures LatestBase(RowAt(s, k).queue) < v <==> forall n :: Waits(s, k, n) ==> s.queue[n].baseVersion < v
  {
    var q := RowAt(s, k).queue;
    var m :| m in q && q[m].baseVersion == LatestBase(q);
    assert Waits(s, k, m);
    assert forall n :: Waits(s, k, n) ==> n in q && q[n] == s.queue[n];
  }

  // -------------------------------------------------------------- what a settled write leaves

  /** Write `n` is gone and nothing else is: earlier writes of its row remember the commit if
      it is the highest so far, all others are as they were. */
  ghost predicate RetiredAt(s: Replica, s': Replica, n: nat, commit: Version)
    requires n in s.queue
  {
    && s'.queue.Keys == s.queue.Keys - {n}
    && s'.nextSeq == s.nextSeq && s'.cursors == s.cursors
    && forall m :: m in s'.queue ==>
         s'.queue[m] == if m < n && s.queue[m].rowKey == s.queue[n].rowKey
                        then s.queue[m].(superseded := Higher(s.queue[m].superseded, commit)) else s.queue[m]
  }

  function Higher(superseded: Option<Version>, commit: Version): Option<Version> {
    if superseded.Some? && commit <= superseded.value then superseded else Some(commit)
  }

  ghost predicate OthersWait(s: Replica, n: nat)
    requires n in s.queue
  {
    exists m :: m != n && Waits(s, s.queue[n].rowKey, m)
  }

  ghost predicate NewerWaits(s: Replica, n: nat)
    requires n in s.queue
  {
    exists m :: n < m && Waits(s, s.queue[n].rowKey, m)
  }

  lemma OthersView(s: Replica, n: nat, commit: Version)
    requires n in s.queue
    ensures n in RowAt(s, s.queue[n].rowKey).queue
    ensures OthersWait(s, n) <==> Retire(RowAt(s, s.queue[n].rowKey).queue, n, commit) != map[]
  {
    var k := s.queue[n].rowKey;
    var rest := Retire(RowAt(s, k).queue, n, commit);
    if OthersWait(s, n) {
      var m :| m != n && Waits(s, k, m);
      assert m in rest;
    }
    if rest != map[] {
      var m :| m in rest;
      assert m != n && Waits(s, k, m);
    }
  }

  lemma NewerView(s: Replica, n: nat)
    requires n in s.queue
    ensures NewerWaits(s, n) <==> HasNewer(RowAt(s, s.queue[n].rowKey).queue, n)
  {
    var k := s.queue[n].rowKey;
    if NewerWaits(s, n) {
      var m :| n < m && Waits(s, k, m);
      assert m in RowAt(s, k).queue;
    }
    if HasNewer(RowAt(s, k).queue, n) {
      var m :| m in RowAt(s, k).queue && n < m;
      assert Waits(s, k, m);
    }
  }

  lemma RetiredView(s: Replica, n: nat, commit: Version, rec: Option<Record>)
    requires n in s.queue
    ensures var k := s.queue[n].rowKey;
            n in RowAt(s, k).queue
            && RetiredAt(s, WithRow(s, k, RowState(rec, Retire(RowAt(s, k).queue, n, commit))), n, commit)
  {
    var k := s.queue[n].rowKey;
    var q := RowAt(s, k).queue;
    var rest := Retire(q, n, commit);
    var s' := WithRow(s, k, RowState(rec, rest));
    forall m: nat ensures m in s'.queue <==> m in s.queue && m != n
             ensures m in s'.queue ==> s'.queue[m] == if m in rest then rest[m] else s.queue[m] {
      assert m in q <==> Waits(s, k, m);
    }
    forall m | m in rest
      ensures rest[m] == if m < n then s.queue[m].(superseded := Higher(s.queue[m].superseded, commit)) else s.queue[m]
    {
      assert q[m] == s.queue[m];
    }
  }

  lemma RowOfWrite(s: Replica, n: nat, commit: Version, rec: Option<Record>)
    requires n in s.queue
    ensures var q := RowAt(s, s.queue[n].rowKey).queue;
            && n in q && q[n] == s.queue[n]
            && (OthersWait(s, n) <==> Retire(q, n, commit) != map[])
            && (NewerWaits(s, n) <==> HasNewer(q, n))
            && RetiredAt(s, WithRow(s, s.queue[n].rowKey, RowState(rec, Retire(q, n, commit))), n, commit)
  {
    OthersView(s, n, commit);
    NewerView(s, n);
    RetiredView(s, n, commit, rec);
  }

  /** The echo of a queued write, the first in queue order that the change answers. If a later
      write was settled above it, or a newer one waits, only bookkeeping moves; else the row
      becomes the server's, unless a later version is stored. */
  lemma EchoedWrite(s: Replica, e: ChangeEvent, n: nat)
    requires n in s.queue && Answers(s.queue[n], e)
    requires forall m :: m in s.queue && Answers(s.queue[m], e) ==> n <= m
    ensures var (s', outcome) := ApplyChange(s, e);
            && outcome == EchoAdopted && RetiredAt(s, s', n, e.version)
            && s'.rows == EchoedRows(s, e, n)
  {
    FirstEchoed(s, e, n);
    RowOfWrite(s, n, e.version, RowEcho(RowAt(s, e.rowKey), e, n).rec);
    EchoedRow(s, e, n);
    EchoRetires(RowAt(s, e.rowKey), e, n);
  }

  lemma EchoRetires(r: RowState, e: ChangeEvent, n: nat)
    requires n in r.queue
    ensures RowEcho(r, e, n).queue == Retire(r.queue, n, e.version)
  {
  }

  lemma FirstEchoed(s: Replica, e: ChangeEvent, n: nat)
    requires n in s.queue && Answers(s.queue[n], e)
    requires forall m :: m in s.queue && Answers(s.queue[m], e) ==> n <= m
    ensures FindEcho(RowAt(s, e.rowKey).queue, e) == Some(n)
  {
    var q := RowAt(s, e.rowKey).queue;
    var echo := FindEcho(q, e);
    assert n in q && IsEchoOf(q[n], e);
    assert Answers(s.queue[echo.value], e);
  }

  lemma EchoedRow(s: Replica, e: ChangeEvent, n: nat)
    requires n in s.queue && s.queue[n].rowKey == e.rowKey
    ensures n in RowAt(s, e.rowKey).queue
    ensures WithRow(s, e.rowKey, RowEcho(RowAt(s, e.rowKey), e, n)).rows == EchoedRows(s, e, n)
  {
    OthersView(s, n, e.version);
    NewerView(s, n);
  }

  ghost function EchoedRows(s: Replica, e: ChangeEvent, n: nat): map<RowKey, Record>
    requires n in s.queue
  {
    var k, write := e.rowKey, s.queue[n];
    if write.superseded.Some? && e.version <= write.superseded.value then
      if k in s.rows then s.rows[k := s.rows[k].(dirty := OthersWait(s, n))] else s.rows
    else if NewerWaits(s, n) then
      if k !in s.rows then s.rows
      else
        var rec := s.rows[k];
        s.rows[k := Record(rec.row, if rec.version < e.version then e.version else rec.version, true)]
    else if k in s.rows && e.version < s.rows[k].version then
      s.rows[k := s.rows[k].(dirty := OthersWait(s, n))]
    else ServerRows(s.rows, e, OthersWait(s, n))
  }

  // ---------------------------------------------------------------------- acknowledgements

  /** An acknowledged visible write: its row keeps its payload, moves up to the committed
      version and is clean when nothing else waits; a deleted row stays deleted. */
  lemma AckedVisible(s: Replica, n: nat, committed: Version)
    requires n in s.queue && !s.queue[n].strategy.Pessimistic?
    ensures var k := s.queue[n].rowKey;
            var (s', result) := SettleAck(s, k, n, committed);
            && Step(s, Ack(n, committed)) == s' && RetiredAt(s, s', n, committed)
            && if k !in s.rows then s'.rows == s.rows && result == Success(Superseded)
               else
                 var rec := s.rows[k];
                 var stale := committed < rec.version;
                 && s'.rows == s.rows[k := Record(rec.row, if stale then rec.version else committed, OthersWait(s, n))]
                 && result == Success(if stale then Superseded else Adopt(committed))
  {
    var k := s.queue[n].rowKey;
    AckIsSettlement(s, n, k, committed);
    RowOfWrite(s, n, committed, RowAck(RowAt(s, k), n, committed).0.rec);
    SameQueue(s, k, None);
  }

  /** An acknowledged pessimistic write: a newer visible value is preserved; otherwise a
      deletion deletes the row and an upsert stores exactly its payload. */
  lemma AckedPessimistic(s: Replica, n: nat, committed: Version)
    requires n in s.queue && s.queue[n].strategy.Pessimistic?
    ensures var k := s.queue[n].rowKey;
            var (s', result) := SettlePessimistic(s, k, n, committed);
            && Step(s, Ack(n, committed)) == s' && RetiredAt(s, s', n, committed)
            && if k in s.rows && s.rows[k].dirty && NewerWaits(s, n) then
                 var rec := s.rows[k];
                 var version := if rec.version < committed then committed else rec.version;
                 && s'.rows == s.rows[k := Record(rec.row, version, true)]
                 && result == Success(Superseded)
               else
                 && result == Success(Adopt(committed))
                 && s'.rows == match s.queue[n].op
                               case Delete => s.rows - {k}
                               case Upsert =>
                                 s.rows[k := Record(s.queue[n].payload, committed, OthersWait(s, n))]
  {
    var k := s.queue[n].rowKey;
    AckIsSettlement(s, n, k, committed);
    RowOfWrite(s, n, committed, RowPessimistic(RowAt(s, k), n, committed).0.rec);
  }

  /** Settling what is not queued does nothing; settling it for another row is refused. */
  lemma SettledElsewhereIsRefused(s: Replica, k: RowKey, n: nat, e: ChangeEvent, committed: Version)
    requires n !in s.queue || (s.queue[n].rowKey != k && s.queue[n].rowKey != e.rowKey)
    ensures SettleAck(s, k, n, committed) == SettlePessimistic(s, k, n, committed)
         == (s, if n in s.queue then Failure(IdentityChanged) else Success(Missing))
    ensures AdoptEcho(s, e, n) == (s, if n in s.queue then Failure(IdentityChanged) else Success(false))
  {
  }

  // ------------------------------------------------------------------------------- writes

  /** The row value held before a write, null for an absent row. */
  function Held(s: Replica, k: RowKey): JsValue {
    if k in s.rows then s.rows[k].row else Null
  }

  /** `value` is the patch folded into `held`: where the patch assigns, it reads as the patch,
      and where the patch says nothing, as before; what is no object is replaced. */
  ghost predicate Folds(held: JsValue, patch: JsValue, value: JsValue) {
    && (forall path :: WrittenBy(patch, path) ==> Read(value, path) == Read(patch, path))
    && (forall path :: LeavesPatch(patch, path, 0) && Read(held, path).Some? ==>
          Read(value, path) == Read(held, path))
    && (!patch.Object? || !held.Object? ==> value == if patch.Undefined? then held else patch)
  }

  /** A write stores and sends one value. It is queued under the next sequence with no attempt
      made, based on the stored version; a visible one shows at once, dirty at that version, or
      removes the row; a pessimistic one leaves the rows alone. */
  lemma WriteLaw(s: Replica, a: Action)
    requires Valid(s) && a.Write?
    ensures var k, n, s' := a.rowKey, s.nextSeq, Step(s, a);
            && s'.nextSeq == n + 1 && s'.cursors == s.cursors && s'.queue.Keys == s.queue.Keys + {n}
            && (forall m :: m in s.queue ==> s'.queue[m] == s.queue[m])
            && var base: Version := if k in s.rows then s.rows[k].version else 0;
               var payload := s'.queue[n].payload;
               && s'.queue[n] == QueuedWrite(k, a.op, payload, base, Some(a.key), a.strategy, 0, None)
               && (a.op.Delete? ==> payload == Null)
               && (a.op.Upsert? && !a.merge ==> payload == a.row)
               && (a.op.Upsert? && a.merge ==> Folds(Held(s, k), a.row, payload))
               && s'.rows == (if a.strategy.Pessimistic? then s.rows
                              else if a.op.Delete? then s.rows - {k}
                              else s.rows[k := Record(payload, base, true)])
  {
    var k := a.rowKey;
    assert s.nextSeq !in s.queue;
    assert RowAt(s, k).rec == if k in s.rows then Some(s.rows[k]) else None;
    if a.op.Upsert? && a.merge {
      MergeFolds(Held(s, k), a.row);
    }
    WrittenQueue(s, a);
  }

  lemma WrittenQueue(s: Replica, a: Action)
    requires Valid(s) && a.Write?
    ensures Step(s, a).queue == s.queue[s.nextSeq := NewWrite(RowAt(s, a.rowKey).rec, a)]
  {
  }

  lemma MergeFolds(held: JsValue, patch: JsValue)
    ensures Folds(held, patch, DeepMerge(held, patch))
  {
    forall path ensures WrittenBy(patch, path) ==> Read(DeepMerge(held, patch), path) == Read(patch, path)
                ensures LeavesPatch(patch, path, 0) && Read(held, path).Some? ==>
                          Read(DeepMerge(held, patch), path) == Read(held, path)
    {
      DeepMergeReads(held, patch, path);
    }
  }

  /** The two enqueue transactions of the store, for any write given to them. */
  lemma EnqueueLaw(s: Replica, write: QueuedWrite, row: JsValue)
    ensures var queued := s.(queue := s.queue[s.nextSeq := write.(attempts := 0)], nextSeq := s.nextSeq + 1);
            && Enqueue(s, write) == (queued, s.nextSeq)
            && EnqueueOptimistic(s, write, row)
               == (queued.(rows := match write.op
                                   case Delete => s.rows - {write.rowKey}
                                   case Upsert => s.rows[write.rowKey := Record(row, write.baseVersion, true)]),
                   s.nextSeq)
  {
    assert EnqueueOptimistic(s, write, row).0.queue == s.queue[s.nextSeq := write.(attempts := 0)];
  }

  /** A failed send counts one attempt of a queued write, and reports none for a missing one. */
  lemma FailedSendLaw(s: Replica, n: nat)
    ensures var (s', attempts) := BumpAttempts(s, n);
            && Step(s, FailedSend(n)) == s'
            && if n in s.queue then
                 attempts == s.queue[n].attempts + 1
                 && s' == s.(queue := s.queue[n := s.queue[n].(attempts := attempts)])
               else attempts == 0 && s' == s
  {
    FailedSendIsBump(s, n);
  }

  /** Pruning removes a clean row and nothing else. */
  lemma PruneLaw(s: Replica, k: RowKey)
    ensures Step(s, Prune(k)) == if k in s.rows && !s.rows[k].dirty then s.(rows := s.rows - {k}) else s
  {
    RowPutBack(s, k);
    SameQueue(s, k, None);
  }

  /** A conflict drops the stale writes. If another write of the row is left, the local value is
      kept, dirty, at the later version; otherwise the server's row is taken. */
  lemma ConflictLaw(s: Replica, e: ChangeEvent, stale: set<nat>)
    ensures var k, s' := e.rowKey, ResolveConflict(s, e, stale);
            && s' == s.(rows := s'.rows, queue := s.queue - stale)
            && s'.rows == if forall n :: Waits(s, k, n) ==> n in stale then ServerRows(s.rows, e, false)
                          else if k !in s.rows then s.rows
                          else
                            var version := if s.rows[k].version < e.version then e.version else s.rows[k].version;
                            s.rows[k := Record(s.rows[k].row, version, true)]
  {
    var k, left := e.rowKey, s.(queue := s.queue - stale);
    var q := RowAt(left, k).queue;
    SameQueue(left, k, RowConflict(RowAt(left, k).rec, q, e).rec);
    if q == map[] {
      assert forall n :: Waits(s, k, n) && n !in stale ==> n in q;
    } else {
      var n :| n in q;
      assert Waits(s, k, n) && n !in stale;
    }
  }

  // --------------------------------------------------------------------------- over runs

  /** Nothing that touches the deletion `n` of row `k` made in state `s`: no newer write to the
      row, not its own acknowledgement, and only foreign changes of the row at or below `v`. */
  ghost predicate Spares(s: Replica, k: RowKey, n: nat, v: Version, a: Action) {
    match a
    case Write(rowKey, _, _, _, _, _) => rowKey != k
    case Ack(m, _) => m != n
    case Deliver(e) => e.rowKey == k ==> e.version <= v && Foreign(s, e)
    case FailedSend(_) => true
    case Prune(_) => true
  }

  /** The deletion waits, its row is absent, and the row's other writes are among those of `s`. */
  ghost predicate DeletionWaits(s: Replica, s': Replica, k: RowKey, n: nat, v: Version) {
    && Valid(s') && Waits(s', k, n) && k !in s'.rows
    && Waits(s, k, n) && s.queue[n].baseVersion == v
    && (forall m :: Waits(s', k, m) ==> Waits(s, k, m) && SameIntent(s.queue[m], s'.queue[m]))
    && forall m :: Waits(s, k, m) ==> !(s.queue[m].strategy.Pessimistic? && s.queue[m].op.Upsert?)
  }

  lemma ChangeSparesDeletion(s: Replica, s': Replica, k: RowKey, n: nat, v: Version, e: ChangeEvent)
    requires DeletionWaits(s, s', k, n, v) && Spares(s, k, n, v, Deliver(e))
    ensures DeletionWaits(s, Step(s', Deliver(e)), k, n, v)
  {
    DeliverIsApply(s', e);
    StepIsLocal(s', Deliver(e), k);
    if e.rowKey == k {
      forall m | m in s'.queue ensures !Answers(s'.queue[m], e) {
        if Waits(s', k, m) {
          assert !Answers(s.queue[m], e);
        }
      }
      ForeignChange(s', e, n);
    } else {
      SameRow(s', Step(s', Deliver(e)), k);
    }
  }

  /** Equal views of a row are equal records. */
  lemma SameRow(s: Replica, s': Replica, k: RowKey)
    requires RowAt(s, k) == RowAt(s', k)
    ensures k in s.rows <==> k in s'.rows
    ensures forall m :: Waits(s, k, m) <==> Waits(s', k, m)
    ensures forall m :: Waits(s, k, m) ==> m in s'.queue && s.queue[m] == s'.queue[m]
  {
    forall m ensures Waits(s, k, m) <==> Waits(s', k, m)
             ensures Waits(s, k, m) ==> m in s'.queue && s.queue[m] == s'.queue[m] {
      assert Waits(s, k, m) <==> m in RowAt(s, k).queue;
      assert Waits(s', k, m) <==> m in RowAt(s', k).queue;
    }
  }

  /** Retiring another write leaves the deletion waiting. */
  lemma RetiringSparesDeletion(s: Replica, s': Replica, s'': Replica, k: RowKey, n: nat, v: Version, m: nat,
                               committed: Version)
    requires DeletionWaits(s, s', k, n, v) && m != n && m in s'.queue
    requires RetiredAt(s', s'', m, committed) && Valid(s'') && k !in s''.rows
    ensures DeletionWaits(s, s'', k, n, v)
  {
  }

  /** No acknowledgement brings the row back. */
  lemma AckLeavesAbsent(s: Replica, s': Replica, k: RowKey, n: nat, v: Version, m: nat, committed: Version)
    requires DeletionWaits(s, s', k, n, v) && Waits(s', k, m)
    ensures k !in Step(s', Ack(m, committed)).rows
    ensures RetiredAt(s', Step(s', Ack(m, committed)), m, committed)
  {
    if s'.queue[m].strategy.Pessimistic? {
      assert s'.queue[m].op.Delete?;
      AckedPessimistic(s', m, committed);
    } else {
      AckedVisible(s', m, committed);
    }
  }

  lemma AckSparesDeletion(s: Replica, s': Replica, k: RowKey, n: nat, v: Version, m: nat, committed: Version)
    requires DeletionWaits(s, s', k, n, v) && m != n
    ensures DeletionWaits(s, Step(s', Ack(m, committed)), k, n, v)
  {
    var s'' := Step(s', Ack(m, committed));
    StepIsLocal(s', Ack(m, committed), k);
    if Waits(s', k, m) {
      AckLeavesAbsent(s, s', k, n, v, m, committed);
      RetiringSparesDeletion(s, s', s'', k, n, v, m, committed);
    } else {
      SameRow(s', s'', k);
    }
  }

  lemma FailedSendSparesDeletion(s: Replica, s': Replica, k: RowKey, n: nat, v: Version, m: nat)
    requires DeletionWaits(s, s', k, n, v)
    ensures DeletionWaits(s, Step(s', FailedSend(m)), k, n, v)
  {
    StepIsLocal(s', FailedSend(m), k);
    FailedSendIsBump(s', m);
  }

  lemma StepSparesDeletion(s: Replica, s': Replica, k: RowKey, n: nat, v: Version, a: Action)
    requires DeletionWaits(s, s', k, n, v) && Spares(s, k, n, v, a)
    ensures DeletionWaits(s, Step(s', a), k, n, v)
  {
    match a
    case Deliver(e) => ChangeSparesDeletion(s, s', k, n, v, e);
    case Ack(m, committed) => AckSparesDeletion(s, s', k, n, v, m, committed);
    case FailedSend(m) => FailedSendSparesDeletion(s, s', k, n, v, m);
    case Write(rowKey, _, _, _, _, _) =>
      StepIsLocal(s', a, k);
      SameRow(s', Step(s', a), k);
    case Prune(rowKey) =>
      StepIsLocal(s', a, k);
      SameRow(s', Step(s', a), k);
  }

  lemma {:induction false} RunSparesDeletion(s: Replica, s': Replica, k: RowKey, n: nat, v: Version, trace: seq<Action>)
    requires DeletionWaits(s, s', k, n, v) && forall a :: a in trace ==> Spares(s, k, n, v, a)
    ensures DeletionWaits(s, Run(s', trace), k, n, v)
    decreases |trace|
  {
    if trace != [] {
      StepSparesDeletion(s, s', k, n, v, trace[0]);
      RunSparesDeletion(s, Step(s', trace[0]), k, n, v, trace[1..]);
    }
  }

  /** A queued visible deletion of a row at version `v` is never retired by foreign changes at
      or below `v`, and the row stays deleted, whatever else happens that spares it. */
  lemma {:induction false} DeletionOutlivesStaleChanges(s: Replica, a: Action, trace: seq<Action>)
    requires Valid(s) && a.Write? && a.op.Delete? && !a.strategy.Pessimistic? && a.rowKey in s.rows
    requires forall m :: Waits(s, a.rowKey, m) ==> !(s.queue[m].strategy.Pessimistic? && s.queue[m].op.Upsert?)
    requires forall b :: b in trace ==>
               Spares(Step(s, a), a.rowKey, s.nextSeq, s.rows[a.rowKey].version, b)
    ensures var after := Run(Step(s, a), trace);
            s.nextSeq in after.queue && after.queue[s.nextSeq].op.Delete? && a.rowKey !in after.rows
  {
    var k, n := a.rowKey, s.nextSeq;
    WriteLaw(s, a);
    StepIsLocal(s, a, k);
    RunSparesDeletion(Step(s, a), Step(s, a), k, n, s.rows[k].version, trace);
  }

  /** A pessimistic write, acknowledged after any run, becomes what it asked for, unless a newer
      write waits on a dirty value: a deletion leaves no row, an upsert exactly its payload at
      the committed version. Other rows are untouched. */
  lemma {:induction false} AckedWriteIsDone(s: Replica, a: Action, trace: seq<Action>, committed: Version)
    requires Valid(s) && a.Write? && a.strategy.Pessimistic?
    requires s.nextSeq in Run(Step(s, a), trace).queue
    ensures var k, n, after := a.rowKey, s.nextSeq, Run(Step(s, a), trace);
            var rows := Step(after, Ack(n, committed)).rows;
            && rows - {k} == after.rows - {k}
            && if k in after.rows && after.rows[k].dirty && NewerWaits(after, n) then
                 k in rows && rows[k].row == after.rows[k].row
               else if a.op.Delete? then k !in rows
               else k in rows && rows[k] == Record(Step(s, a).queue[n].payload, committed, OthersWait(after, n))
  {
    var n, after := s.nextSeq, Run(Step(s, a), trace);
    WriteLaw(s, a);
    StepIsLocal(s, a, a.rowKey);
    IntentIsKept(Step(s, a), trace, n);
    AckedIsDone(after, n, committed);
  }

  lemma AckedIsDone(s: Replica, n: nat, committed: Version)
    requires n in s.queue && s.queue[n].strategy.Pessimistic?
    ensures var k, rows := s.queue[n].rowKey, Step(s, Ack(n, committed)).rows;
            && rows - {k} == s.rows - {k}
            && if k in s.rows && s.rows[k].dirty && NewerWaits(s, n) then k in rows && rows[k].row == s.rows[k].row
               else if s.queue[n].op.Delete? then k !in rows
               else k in rows && rows[k] == Record(s.queue[n].payload, committed, OthersWait(s, n))
  {
    AckedPessimistic(s, n, committed);
  }

  // -------------------------------------------------------------------------- the cursor

  /** What happens to a replica: an action, or a call of `setCursor`. */
  datatype Call = Act(action: Action) | Save(cursor: int, scope: string)

  function Called(s: Replica, call: Call): Replica {
    match call
    case Act(a) => Step(s, a)
    case Save(cursor, scope) => SetCursor(s, cursor, scope).0
  }

  function CallAll(s: Replica, calls: seq<Call>): Replica
    decreases |calls|
  {
    if calls == [] then s else CallAll(Called(s, calls[0]), calls[1..])
  }

  /** A cursor is accepted exactly if it is a safe natural number not behind the saved one;
      then it is what is saved, and otherwise nothing changes. */
  lemma CursorLaw(s: Replica, cursor: int, scope: string)
    ensures var (s', result) := SetCursor(s, cursor, scope);
            if 0 <= cursor <= 9007199254740991 && (scope in s.cursors ==> s.cursors[scope] <= cursor)
            then s' == s.(cursors := s.cursors[scope := cursor]) && result == Success(cursor)
            else s' == s && result.Failure?
                 && (result.error.CursorMovedBackwards? <==> 0 <= cursor <= 9007199254740991)
  {
  }

  /** Over any run and any calls, a saved cursor stays saved and never decreases. */
  lemma {:induction false} CursorsNeverFall(s: Replica, calls: seq<Call>, scope: string)
    requires scope in s.cursors
    ensures scope in CallAll(s, calls).cursors && s.cursors[scope] <= CallAll(s, calls).cursors[scope]
    decreases |calls|
  {
    if calls != [] {
      var s' := Called(s, calls[0]);
      assert scope in s'.cursors && s.cursors[scope] <= s'.cursors[scope];
      CursorsNeverFall(s', calls[1..], scope);
    }
  }
}
