/** The IndexedDB store and its durable write queue (langs/typescript/src/store.mjs). Each
    method is one transaction: it reads, then puts and deletes records, and commits whole. */
module IndexedDb {
  import opened Wrappers
  import opened Merge
  import opened ReconcileCore
  import opened RowMachine
  import opened KeyedStore
  import opened AssocArray

  /** A queue record as `getAll` returns it, carrying its generated key. */
  type Queued = Item<nat, QueuedWrite>

  /** All queue records in key order. */
  ghost predicate InOrder(writes: seq<Queued>, queue: map<nat, QueuedWrite>) {
    && (forall i, j :: 0 <= i < j < |writes| ==> writes[i].key < writes[j].key)
    && (forall i :: 0 <= i < |writes| ==> writes[i].key in queue && queue[writes[i].key] == writes[i].value)
    && (forall n :: n in queue ==> Item(n, queue[n]) in writes)
  }

  predicate OfRow(c: Queued, k: RowKey) {
    c.value.rowKey == k
  }

  /** Some other write of row `k` is queued. */
  predicate SomeOther(writes: seq<Queued>, k: RowKey, n: nat) {
    exists c :: c in writes && c.key != n && OfRow(c, k)
  }

  /** A later write of row `k` is queued. */
  predicate SomeNewer(writes: seq<Queued>, k: RowKey, n: nat) {
    exists c :: c in writes && n < c.key && OfRow(c, k)
  }

  /** What `getAll` shows about one row. */
  lemma RowView(s: Replica, writes: seq<Queued>, k: RowKey, n: nat, version: Version)
    requires InOrder(writes, s.queue)
    ensures SomeOther(writes, k, n) <==> Retire(RowAt(s, k).queue, n, version) != map[]
    ensures SomeNewer(writes, k, n) <==> HasNewer(RowAt(s, k).queue, n)
  {
    var q := RowAt(s, k).queue;
    var rest := Retire(q, n, version);
    if SomeOther(writes, k, n) {
      var c :| c in writes && c.key != n && OfRow(c, k);
      assert c.key in rest;
    }
    if rest != map[] {
      var m :| m in rest;
      assert Item(m, s.queue[m]) in writes && OfRow(Item(m, s.queue[m]), k);
    }
    if SomeNewer(writes, k, n) {
      var c :| c in writes && n < c.key && OfRow(c, k);
      assert c.key in q;
    }
    if HasNewer(q, n) {
      var m :| m in q && n < m;
      assert Item(m, s.queue[m]) in writes && OfRow(Item(m, s.queue[m]), k);
    }
  }

  /** Raise `superseded_version` on the earlier writes of the row, in order. */
  function Marked(queue: map<nat, QueuedWrite>, k: RowKey, n: nat, version: Version)
    : (marked: map<nat, QueuedWrite>)
    ensures marked.Keys == queue.Keys
    ensures forall m :: m in queue ==>
              marked[m] == if m < n && queue[m].rowKey == k then Raised(queue[m], version) else queue[m]
  {
    if n == 0 then queue
    else
      var marked := Marked(queue, k, n - 1, version);
      if n - 1 in queue && queue[n - 1].rowKey == k then marked[n - 1 := Raised(queue[n - 1], version)] else marked
  }

  lemma {:induction false} MarkedIsRetired(s: Replica, k: RowKey, n: nat, version: Version, rec: Option<Record>)
    requires n in s.queue && s.queue[n].rowKey == k
    ensures WithRow(s, k, RowState(rec, Retire(RowAt(s, k).queue, n, version))).queue
         == Marked(s.queue, k, n, version) - {n}
  {
  }

  /** Some write of row `k` that is not stale is queued. */
  predicate SomeFresh(writes: seq<Queued>, k: RowKey, stale: set<nat>) {
    exists c :: c in writes && c.key !in stale && OfRow(c, k)
  }

  lemma FreshView(s: Replica, writes: seq<Queued>, k: RowKey, stale: set<nat>)
    requires InOrder(writes, s.queue)
    ensures SomeFresh(writes, k, stale) <==> RowAt(s.(queue := s.queue - stale), k).queue != map[]
  {
    var remaining := RowAt(s.(queue := s.queue - stale), k).queue;
    if SomeFresh(writes, k, stale) {
      var c :| c in writes && c.key !in stale && OfRow(c, k);
      assert c.key in remaining;
    }
    if remaining != map[] {
      var m :| m in remaining;
      assert Item(m, s.queue[m]) in writes && OfRow(Item(m, s.queue[m]), k);
    }
  }

  lemma ConflictQueue(s: Replica, e: ChangeEvent, stale: set<nat>)
    ensures KeyedStore.ResolveConflict(s, e, stale).queue == s.queue - stale
  {
    RowPutBack(s.(queue := s.queue - stale), e.rowKey);
    var r := RowAt(s.(queue := s.queue - stale), e.rowKey);
    assert RowConflict(r.rec, r.queue, e).queue == r.queue;
  }

  // -------------------------------------------- the transactions, as record updates

  lemma EnqueueForm(s: Replica, write: QueuedWrite, row: JsValue)
    ensures KeyedStore.EnqueueOptimistic(s, write, row)
         == (s.(rows := if write.op.Delete? then s.rows - {write.rowKey}
                        else s.rows[write.rowKey := Record(row, write.baseVersion, true)],
                queue := s.queue[s.nextSeq := write.(attempts := 0)],
                nextSeq := s.nextSeq + 1),
             s.nextSeq)
  {
    assert KeyedStore.EnqueueOptimistic(s, write, row).0.queue == s.queue[s.nextSeq := write.(attempts := 0)];
  }

  function AckRows(rows: map<RowKey, Record>, k: RowKey, committed: Version, other: bool): map<RowKey, Record> {
    if k !in rows then rows
    else
      var rec := rows[k];
      rows[k := rec.(version := if rec.version <= committed then committed else rec.version, dirty := other)]
  }

  lemma {:induction false} AckForm(s: Replica, writes: seq<Queued>, k: RowKey, n: nat, committed: Version)
    requires InOrder(writes, s.queue) && n in s.queue && s.queue[n].rowKey == k
    ensures KeyedStore.SettleAck(s, k, n, committed)
         == (s.(rows := AckRows(s.rows, k, committed, SomeOther(writes, k, n)),
                queue := Marked(s.queue, k, n, committed) - {n}),
             Success(if k in s.rows && s.rows[k].version <= committed then Adopt(committed) else Superseded))
  {
    RowView(s, writes, k, n, committed);
    AckRowForm(s, k, n, committed, SomeOther(writes, k, n));
    MarkedIsRetired(s, k, n, committed, RowAck(RowAt(s, k), n, committed).0.rec);
  }

  lemma AckRowForm(s: Replica, k: RowKey, n: nat, committed: Version, other: bool)
    requires n in s.queue && s.queue[n].rowKey == k
    requires other <==> Retire(RowAt(s, k).queue, n, committed) != map[]
    ensures WithRow(s, k, RowAck(RowAt(s, k), n, committed).0).rows == AckRows(s.rows, k, committed, other)
  {
  }

  function PessimisticRows(rows: map<RowKey, Record>, k: RowKey, write: QueuedWrite, committed: Version,
                           other: bool, newer: bool): map<RowKey, Record> {
    if k in rows && rows[k].dirty && newer then
      rows[k := rows[k].(version := Max(rows[k].version, committed), dirty := true)]
    else if write.op.Delete? then rows - {k}
    else rows[k := Record(write.payload, committed, other)]
  }

  lemma {:induction false} PessimisticForm(s: Replica, writes: seq<Queued>, k: RowKey, n: nat, committed: Version)
    requires InOrder(writes, s.queue) && n in s.queue && s.queue[n].rowKey == k
    ensures KeyedStore.SettlePessimistic(s, k, n, committed)
         == (s.(rows := PessimisticRows(s.rows, k, s.queue[n], committed,
                                        SomeOther(writes, k, n), SomeNewer(writes, k, n)),
                queue := Marked(s.queue, k, n, committed) - {n}),
             Success(if k in s.rows && s.rows[k].dirty && SomeNewer(writes, k, n) then Superseded
                     else Adopt(committed)))
  {
    RowView(s, writes, k, n, committed);
    MarkedIsRetired(s, k, n, committed, RowPessimistic(RowAt(s, k), n, committed).0.rec);
  }

  function EchoRows(rows: map<RowKey, Record>, e: ChangeEvent, echo: QueuedWrite, other: bool, newer: bool)
    : map<RowKey, Record>
  {
    var k := e.rowKey;
    if echo.superseded.Some? && echo.superseded.value >= e.version then
      if k in rows then rows[k := rows[k].(dirty := other)] else rows
    else if newer then
      if k in rows then rows[k := rows[k].(version := Max(rows[k].version, e.version), dirty := true)] else rows
    else if k in rows && e.version < rows[k].version then rows[k := rows[k].(dirty := other)]
    else if e.op.Delete? then rows - {k}
    else rows[k := Record(e.row, e.version, other)]
  }

  lemma EchoRowForm(s: Replica, e: ChangeEvent, n: nat, other: bool, newer: bool)
    requires n in s.queue && s.queue[n].rowKey == e.rowKey
    requires other <==> Retire(RowAt(s, e.rowKey).queue, n, e.version) != map[]
    requires newer <==> HasNewer(RowAt(s, e.rowKey).queue, n)
    ensures WithRow(s, e.rowKey, RowEcho(RowAt(s, e.rowKey), e, n)).rows
         == EchoRows(s.rows, e, s.queue[n], other, newer)
  {
  }

  lemma {:induction false} EchoForm(s: Replica, writes: seq<Queued>, e: ChangeEvent, n: nat)
    requires InOrder(writes, s.queue) && n in s.queue && s.queue[n].rowKey == e.rowKey
    ensures KeyedStore.AdoptEcho(s, e, n)
         == (s.(rows := EchoRows(s.rows, e, s.queue[n], SomeOther(writes, e.rowKey, n), SomeNewer(writes, e.rowKey, n)),
                queue := Marked(s.queue, e.rowKey, n, e.version) - {n}),
             Success(true))
  {
    var k := e.rowKey;
    var r := RowEcho(RowAt(s, k), e, n);
    var s' := KeyedStore.AdoptEcho(s, e, n).0;
    assert s' == WithRow(s, k, r);
    assert s'.queue == Marked(s.queue, k, n, e.version) - {n} by {
      MarkedIsRetired(s, k, n, e.version, r.rec);
    }
    assert s'.rows == EchoRows(s.rows, e, s.queue[n], SomeOther(writes, k, n), SomeNewer(writes, k, n)) by {
      RowView(s, writes, k, n, e.version);
      EchoRowForm(s, e, n, SomeOther(writes, k, n), SomeNewer(writes, k, n));
    }
  }

  function ConflictRows(rows: map<RowKey, Record>, e: ChangeEvent, pending: bool): map<RowKey, Record> {
    var k := e.rowKey;
    if pending then
      if k in rows then rows[k := rows[k].(version := Max(rows[k].version, e.version), dirty := true)] else rows
    else if e.op.Delete? then rows - {k}
    else rows[k := Record(e.row, e.version, false)]
  }

  lemma ConflictForm(s: Replica, writes: seq<Queued>, e: ChangeEvent, stale: set<nat>)
    requires InOrder(writes, s.queue)
    ensures KeyedStore.ResolveConflict(s, e, stale)
         == s.(rows := ConflictRows(s.rows, e, SomeFresh(writes, e.rowKey, stale)), queue := s.queue - stale)
  {
    FreshView(s, writes, e.rowKey, stale);
    ConflictQueue(s, e, stale);
  }

  /** How far the marking has come when record `i` is next. */
  function Threshold(writes: seq<Queued>, i: nat, n: nat): nat {
    if i < |writes| && writes[i].key < n then writes[i].key else n
  }

  /** Marking one more record, which is left alone when it is not an earlier one of the row. */
  lemma {:induction false} MarkStep(queue: map<nat, QueuedWrite>, writes: seq<Queued>, k: RowKey, n: nat,
                                    version: Version, i: nat)
    requires InOrder(writes, queue) && i < |writes|
    ensures var before := Marked(queue, k, Threshold(writes, i, n), version);
            Marked(queue, k, Threshold(writes, i + 1, n), version)
            == (if writes[i].key < n && OfRow(writes[i], k)
                then before[writes[i].key := writes[i].value.(superseded := Raise(writes[i].value.superseded, version))]
                else before)
  {
    var before, after := Marked(queue, k, Threshold(writes, i, n), version),
                         Marked(queue, k, Threshold(writes, i + 1, n), version);
    forall m | m in queue && m != writes[i].key ensures after[m] == before[m] {
      SameSide(queue, writes, n, i, m);
    }
    assert after.Keys == queue.Keys == before.Keys;
    assert before[writes[i].key] == queue[writes[i].key];
  }

  /** Only the next record passes the threshold when it moves on. */
  lemma SameSide(queue: map<nat, QueuedWrite>, writes: seq<Queued>, n: nat, i: nat, m: nat)
    requires InOrder(writes, queue) && i < |writes| && m in queue && m != writes[i].key
    ensures m < Threshold(writes, i, n) <==> m < Threshold(writes, i + 1, n)
  {
    var j :| 0 <= j < |writes| && writes[j] == Item(m, queue[m]);
  }

  lemma {:induction false} MarkStart(queue: map<nat, QueuedWrite>, writes: seq<Queued>, k: RowKey, n: nat,
                                     version: Version)
    requires InOrder(writes, queue)
    ensures Marked(queue, k, Threshold(writes, 0, n), version) == queue
  {
    forall m | m in queue ensures !(m < Threshold(writes, 0, n)) {
      var j :| 0 <= j < |writes| && writes[j] == Item(m, queue[m]);
    }
  }

  class IndexedDbStore {
    var rows: map<RowKey, Record>
    var queue: map<nat, QueuedWrite>
    var nextSeq: nat
    var cursors: map<string, int>

    function State(): Replica
      reads this
    {
      Replica(rows, queue, nextSeq, cursors)
    }

    ghost predicate Valid()
      reads this
    {
      KeyedStore.Valid(State())
    }

    constructor Open()
      ensures Valid() && State() == FRESH
    {
      rows, queue, nextSeq, cursors := map[], map[], 1, map[];
    }

    // ------------------------------------------------------------------- rows

    method Get(k: RowKey) returns (row: JsValue)
      ensures row == if k in rows then rows[k].row else Null
    {
      row := if k in rows then rows[k].row else Null;
    }

    method GetMeta(k: RowKey) returns (meta: Option<LocalRow>)
      ensures meta == Meta(RowAt(State(), k).rec)
    {
      meta := if k in rows then Some(LocalRow(rows[k].version, rows[k].dirty)) else None;
    }

    method Put(k: RowKey, row: JsValue, version: Version, dirty: bool)
      modifies this
      ensures State() == old(State()).(rows := old(rows)[k := Record(row, version, dirty)])
    {
      rows := rows[k := Record(row, version, dirty)];
    }

    method Del(k: RowKey)
      modifies this
      ensures State() == old(State()).(rows := old(rows) - {k})
    {
      rows := rows - {k};
    }

    /** The stored values of a table's rows, one for each row. */
    method All(table: string) returns (values: seq<JsValue>, ghost keys: seq<RowKey>)
      ensures |keys| == |values| && forall i, j :: 0 <= i < j < |keys| ==> keys[i] != keys[j]
      ensures forall k :: k in keys <==> k in rows && k.table == table
      ensures forall i :: 0 <= i < |keys| ==> values[i] == rows[keys[i]].row
    {
      values, keys := [], [];
      var left := set k | k in rows && k.table == table;
      while left != {}
        invariant |keys| == |values| && forall i, j :: 0 <= i < j < |keys| ==> keys[i] != keys[j]
        invariant forall k :: k in rows && k.table == table <==> k in keys || k in left
        invariant forall k :: k in keys ==> k !in left
        invariant forall i :: 0 <= i < |keys| ==> keys[i] in rows && values[i] == rows[keys[i]].row
      {
        var k :| k in left;
        values, keys := values + [rows[k].row], keys + [k];
        left := left - {k};
      }
    }

    // ---------------------------------------------------------------- cursors

    method LoadCursor(scope: string) returns (cursor: int)
      ensures cursor == GetCursor(State(), scope)
    {
      cursor := if scope in cursors then cursors[scope] else 0;
    }

    method SetCursor(cursor: int, scope: string) returns (result: Result<int, StoreError>)
      modifies this
      ensures (State(), result) == KeyedStore.SetCursor(old(State()), cursor, scope)
    {
      if cursor < 0 || cursor > MAX_SAFE {
        return Failure(InvalidCursor);
      }
      if scope in cursors && cursor < cursors[scope] {
        return Failure(CursorMovedBackwards);
      }
      cursors := cursors[scope := cursor];
      return Success(cursor);
    }

    // ------------------------------------------------------------------ queue

    method GetAll() returns (writes: seq<Queued>)
      requires Valid()
      ensures InOrder(writes, queue)
    {
      writes := [];
      for n := 0 to nextSeq
        invariant forall i, j :: 0 <= i < j < |writes| ==> writes[i].key < writes[j].key
        invariant forall i :: 0 <= i < |writes| ==>
                    writes[i].key < n && writes[i].key in queue && queue[writes[i].key] == writes[i].value
        invariant forall m :: m in queue && m < n ==> Item(m, queue[m]) in writes
      {
        if n in queue {
          writes := writes + [Item(n, queue[n])];
        }
      }
    }

    method Enqueue(write: QueuedWrite) returns (n: nat)
      modifies this
      ensures (State(), n) == KeyedStore.Enqueue(old(State()), write)
    {
      n := nextSeq;
      queue := queue[n := write.(attempts := 0)];
      nextSeq := nextSeq + 1;
    }

    method EnqueueOptimistic(write: QueuedWrite, row: JsValue) returns (n: nat)
      modifies this
      ensures (State(), n) == KeyedStore.EnqueueOptimistic(old(State()), write, row)
    {
      EnqueueForm(State(), write, row);
      if write.op.Delete? {
        rows := rows - {write.rowKey};
      } else {
        rows := rows[write.rowKey := Record(row, write.baseVersion, true)];
      }
      n := nextSeq;
      queue := queue[n := write.(attempts := 0)];
      nextSeq := nextSeq + 1;
    }

    /** The loop over the queued writes that every settlement runs. */
    method MarkSuperseded(writes: seq<Queued>, k: RowKey, n: nat, version: Version)
      requires InOrder(writes, queue)
      modifies this`queue
      ensures queue == Marked(old(queue), k, n, version)
    {
      MarkStart(queue, writes, k, n, version);
      for i := 0 to |writes|
        invariant queue == Marked(old(queue), k, Threshold(writes, i, n), version)
      {
        var candidate := writes[i];
        MarkStep(old(queue), writes, k, n, version, i);
        if candidate.key < n && OfRow(candidate, k) {
          queue := queue[candidate.key := candidate.value.(superseded := Raise(candidate.value.superseded, version))];
        }
      }
    }

    method SettleAck(k: RowKey, n: nat, committed: Version) returns (result: Result<AckOutcome, StoreError>)
      requires Valid()
      modifies this
      ensures (State(), result) == KeyedStore.SettleAck(old(State()), k, n, committed)
    {
      var writes := GetAll();
      if n !in queue {
        return Success(Missing);
      }
      if queue[n].rowKey != k {
        return Failure(IdentityChanged);
      }
      ghost var s := State();
      AckForm(s, writes, k, n, committed);
      var hasOtherPendingWrite := SomeOther(writes, k, n);
      var outcome := Superseded;
      MarkSuperseded(writes, k, n, committed);
      if k in rows {
        var rec := rows[k];
        if rec.version <= committed {
          rec := rec.(version := committed);
          outcome := Adopt(committed);
        }
        rows := rows[k := rec.(dirty := hasOtherPendingWrite)];
      }
      queue := queue - {n};
      return Success(outcome);
    }

    method AdoptEcho(event: ChangeEvent, n: nat) returns (result: Result<bool, StoreError>)
      requires Valid()
      modifies this
      ensures (State(), result) == KeyedStore.AdoptEcho(old(State()), event, n)
    {
      var writes := GetAll();
      if n !in queue {
        return Success(false);
      }
      var echo := queue[n];
      if echo.rowKey != event.rowKey {
        return Failure(IdentityChanged);
      }
      var k := event.rowKey;
      ghost var s := State();
      EchoForm(s, writes, event, n);
      var pending := SomeOther(writes, k, n);
      var hasNewerLocalWrite := SomeNewer(writes, k, n);
      if echo.superseded.Some? && echo.superseded.value >= event.version {
        if k in rows {
          rows := rows[k := rows[k].(dirty := pending)];
        }
      } else if !hasNewerLocalWrite {
        if k !in rows || event.version >= rows[k].version {
          if event.op.Delete? {
            rows := rows - {k};
          } else {
            rows := rows[k := Record(event.row, event.version, pending)];
          }
        } else {
          rows := rows[k := rows[k].(dirty := pending)];
        }
      } else if k in rows {
        rows := rows[k := rows[k].(version := Max(rows[k].version, event.version), dirty := true)];
      }
      MarkSuperseded(writes, k, n, event.version);
      queue := queue - {n};
      return Success(true);
    }

    method ResolveConflict(event: ChangeEvent, stale: set<nat>)
      requires Valid()
      modifies this
      ensures State() == KeyedStore.ResolveConflict(old(State()), event, stale)
    {
      var writes := GetAll();
      var k := event.rowKey;
      ghost var s := State();
      ConflictForm(s, writes, event, stale);
      var hasNewerLocalWrite := SomeFresh(writes, k, stale);
      if !hasNewerLocalWrite {
        if event.op.Delete? {
          rows := rows - {k};
        } else {
          rows := rows[k := Record(event.row, event.version, false)];
        }
      } else if k in rows {
        rows := rows[k := rows[k].(version := Max(rows[k].version, event.version), dirty := true)];
      }
      queue := queue - stale;
    }

    method SettlePessimistic(k: RowKey, n: nat, committed: Version) returns (result: Result<AckOutcome, StoreError>)
      requires Valid()
      modifies this
      ensures (State(), result) == KeyedStore.SettlePessimistic(old(State()), k, n, committed)
    {
      var writes := GetAll();
      if n !in queue {
        return Success(Missing);
      }
      var write := queue[n];
      if write.rowKey != k {
        return Failure(IdentityChanged);
      }
      ghost var s := State();
      PessimisticForm(s, writes, k, n, committed);
      var hasOther := SomeOther(writes, k, n);
      var hasNewerOptimisticValue := k in rows && rows[k].dirty && SomeNewer(writes, k, n);
      var outcome := Superseded;
      MarkSuperseded(writes, k, n, committed);
      if hasNewerOptimisticValue {
        rows := rows[k := rows[k].(version := Max(rows[k].version, committed), dirty := true)];
      } else if write.op.Delete? {
        rows := rows - {k};
        outcome := Adopt(committed);
      } else {
        rows := rows[k := Record(write.payload, committed, hasOther)];
        outcome := Adopt(committed);
      }
      queue := queue - {n};
      return Success(outcome);
    }

    method BumpAttempts(n: nat) returns (attempts: nat)
      modifies this
      ensures (State(), attempts) == KeyedStore.BumpAttempts(old(State()), n)
    {
      if n !in queue {
        return 0;
      }
      var rec := queue[n].(attempts := queue[n].attempts + 1);
      queue := queue[n := rec];
      return rec.attempts;
    }
  }
}
