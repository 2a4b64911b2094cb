/** The localStorage store (langs/typescript/src/local-storage.mjs): the whole plane is one
    document of arrays, loaded, changed and written back by every operation. It refines the
    keyed store: each operation commutes with the abstraction of the arrays to maps. */
module LocalStorage {
  import opened Wrappers
  import opened Merge
  import opened ReconcileCore
  import opened RowMachine
  import opened KeyedStore
  import opened AssocArray
  import opened IndexedDb

  type StoredRow = Item<RowKey, Record>

  type StoredCursor = Item<string, int>

  datatype Document = Document(
    revision: nat, nextSeq: nat, rows: seq<StoredRow>, queue: seq<Queued>, cursors: seq<StoredCursor>)

  const FRESH_DOCUMENT := Document(0, 1, [], [], [])

  // ----------------------------------------------------------------- abstraction

  ghost predicate Ascending(queue: seq<Queued>) {
    forall i, j :: 0 <= i < j < |queue| ==> queue[i].key < queue[j].key
  }

  /** Rows and cursors are unique, queue sequences rise and are below the next one. */
  ghost predicate ValidDocument(d: Document) {
    && Unique(d.rows) && Unique(d.cursors) && Ascending(d.queue)
    && 0 < d.nextSeq
    && forall i :: 0 <= i < |d.queue| ==> 0 < d.queue[i].key < d.nextSeq
  }

  ghost function Abstract(d: Document): Replica {
    Replica(MapOf(d.rows), MapOf(d.queue), d.nextSeq, MapOf(d.cursors))
  }

  /** The array lists the queue it stands for, in key order. */
  lemma {:induction false} ArrayInOrder(queue: seq<Queued>)
    requires Ascending(queue)
    ensures InOrder(queue, MapOf(queue))
  {
    forall i | 0 <= i < |queue|
      ensures queue[i].key in MapOf(queue) && MapOf(queue)[queue[i].key] == queue[i].value
    {
      EntryAt(queue, i);
    }
    forall n | n in MapOf(queue) ensures Item(n, MapOf(queue)[n]) in queue {
      EntryOf(queue, n);
    }
  }

  // ------------------------------------------------------------ queue operations

  /** `queue.filter(candidate => !stale.has(candidate.seq))`. */
  method Without(queue: seq<Queued>, stale: set<nat>) returns (queue': seq<Queued>)
    requires Ascending(queue)
    ensures Ascending(queue') && MapOf(queue') == MapOf(queue) - stale
    ensures forall i :: 0 <= i < |queue'| ==> queue'[i] in queue
  {
    queue' := [];
    for i := 0 to |queue|
      invariant Ascending(queue') && MapOf(queue') == MapOf(queue[..i]) - stale
      invariant forall j :: 0 <= j < |queue'| ==> queue'[j] in queue[..i]
    {
      FilterStep(queue, i, queue', stale);
      FilterOrder(queue, i, queue');
      if queue[i].key !in stale {
        queue' := queue' + [queue[i]];
      }
    }
    assert queue[..|queue|] == queue;
  }

  lemma FilterStep(queue: seq<Queued>, i: nat, kept: seq<Queued>, stale: set<nat>)
    requires i < |queue| && MapOf(kept) == MapOf(queue[..i]) - stale
    ensures var kept' := if queue[i].key in stale then kept else kept + [queue[i]];
            MapOf(kept') == MapOf(queue[..i + 1]) - stale
  {
    assert queue[..i + 1] == queue[..i] + [queue[i]];
    Appended(queue[..i], queue[i]);
    Appended(kept, queue[i]);
  }

  lemma FilterOrder(queue: seq<Queued>, i: nat, kept: seq<Queued>)
    requires Ascending(queue) && i < |queue| && Ascending(kept)
    requires forall j :: 0 <= j < |kept| ==> kept[j] in queue[..i]
    ensures Ascending(kept + [queue[i]])
    ensures forall j :: 0 <= j < |kept| ==> kept[j] in queue[..i + 1]
    ensures queue[i] in queue[..i + 1]
  {
    forall j | 0 <= j < |kept| ensures kept[j].key < queue[i].key && kept[j] in queue[..i + 1] {
      var x :| 0 <= x < i && queue[x] == kept[j];
      assert queue[..i + 1][x] == kept[j];
    }
    assert queue[..i + 1][i] == queue[i];
  }

  /** The loop that raises `superseded_version` on the earlier writes of the row. */
  method Mark(queue: seq<Queued>, k: RowKey, n: nat, version: Version) returns (queue': seq<Queued>)
    requires Ascending(queue)
    ensures Ascending(queue') && MapOf(queue') == Marked(MapOf(queue), k, n, version)
    ensures |queue'| == |queue| && forall i :: 0 <= i < |queue| ==> queue'[i].key == queue[i].key
  {
    queue' := queue;
    for i := 0 to |queue|
      invariant |queue'| == |queue|
      invariant forall j :: i <= j < |queue| ==> queue'[j] == queue[j]
      invariant forall j :: 0 <= j < i ==> queue'[j] == MarkedRecord(queue[j], k, n, version)
    {
      if queue[i].key < n && OfRow(queue[i], k) {
        queue' := queue'[i := MarkedRecord(queue[i], k, n, version)];
      }
    }
    MarkedArray(queue, queue', k, n, version);
  }

  function MarkedRecord(c: Queued, k: RowKey, n: nat, version: Version): Queued {
    if c.key < n && OfRow(c, k) then c.(value := c.value.(superseded := Raise(c.value.superseded, version))) else c
  }

  lemma {:induction false} MarkedArray(queue: seq<Queued>, queue': seq<Queued>, k: RowKey, n: nat, version: Version)
    requires |queue'| == |queue|
    requires forall j :: 0 <= j < |queue| ==> queue'[j] == MarkedRecord(queue[j], k, n, version)
    ensures MapOf(queue') == Marked(MapOf(queue), k, n, version)
  {
    if queue != [] {
      var last := |queue| - 1;
      MarkedArray(queue[..last], queue'[..last], k, n, version);
    }
  }

  lemma {:induction false} PushWrite(queue: seq<Queued>, n: nat, write: QueuedWrite)
    requires Ascending(queue) && forall i :: 0 <= i < |queue| ==> queue[i].key < n
    ensures Ascending(queue + [Item(n, write)])
    ensures MapOf(queue + [Item(n, write)]) == MapOf(queue)[n := write]
  {
    Appended(queue, Item(n, write));
  }

  // -------------------------------------------------------------------- the store

  class LocalStorageStore {
    const tables: set<string>
    var document: Document

    ghost predicate Valid()
      reads this
    {
      ValidDocument(document)
    }

    /** The keyed store that the document stands for. */
    ghost function State(): Replica
      requires Valid()
      reads this
    {
      Abstract(document)
    }

    constructor Open(tables: set<string>)
      ensures Valid() && State() == FRESH && this.tables == tables
    {
      this.tables := tables;
      document := FRESH_DOCUMENT;
    }

    /** Write the changed document back: the commit point of every operation. */
    method Commit(rows: seq<StoredRow>, queue: seq<Queued>, nextSeq: nat, cursors: seq<StoredCursor>)
      requires ValidDocument(Document(0, nextSeq, rows, queue, cursors))
      modifies this
      ensures Valid() && State() == Replica(MapOf(rows), MapOf(queue), nextSeq, MapOf(cursors))
    {
      document := Document(document.revision + 1, nextSeq, rows, queue, cursors);
    }

    /** The end of every settlement: mark the earlier writes of the row, drop the settled
        one and write the document back with its new rows. */
    method RetireAndCommit(rows: seq<StoredRow>, k: RowKey, n: nat, version: Version)
      requires Valid() && Unique(rows)
      modifies this
      ensures Valid()
      ensures State() == old(State()).(rows := MapOf(rows), queue := Marked(old(State()).queue, k, n, version) - {n})
    {
      var marked := Mark(document.queue, k, n, version);
      var queue := Without(marked, {n});
      forall i | 0 <= i < |queue| ensures 0 < queue[i].key < document.nextSeq {
        assert queue[i] in marked;
      }
      Commit(rows, queue, document.nextSeq, document.cursors);
    }

    method GetMeta(k: RowKey) returns (meta: Result<Option<LocalRow>, StoreError>)
      requires Valid()
      ensures meta == if k.table !in tables then Failure(TableNotConfigured)
                      else Success(Meta(RowAt(State(), k).rec))
    {
      if k.table !in tables {
        return Failure(TableNotConfigured);
      }
      var index := IndexOf(document.rows, k);
      return Success(if index < 0 then None
                     else Some(LocalRow(document.rows[index].value.version, document.rows[index].value.dirty)));
    }

    method Put(k: RowKey, row: JsValue, version: Version, dirty: bool) returns (result: Result<(), StoreError>)
      requires Valid()
      modifies this
      ensures Valid()
      ensures if k.table !in tables then result == Failure(TableNotConfigured) && State() == old(State())
              else result == Success(()) &&
                   State() == old(State()).(rows := old(State()).rows[k := Record(row, version, dirty)])
    {
      if k.table !in tables {
        return Failure(TableNotConfigured);
      }
      var rows := PutItem(document.rows, k, Record(row, version, dirty));
      Commit(rows, document.queue, document.nextSeq, document.cursors);
      return Success(());
    }

    method Del(k: RowKey) returns (result: Result<(), StoreError>)
      requires Valid()
      modifies this
      ensures Valid()
      ensures if k.table !in tables then result == Failure(TableNotConfigured) && State() == old(State())
              else result == Success(()) && State() == old(State()).(rows := old(State()).rows - {k})
    {
      if k.table !in tables {
        return Failure(TableNotConfigured);
      }
      var rows := DeleteItem(document.rows, k);
      Commit(rows, document.queue, document.nextSeq, document.cursors);
      return Success(());
    }

    method List() returns (writes: seq<Queued>)
      requires Valid()
      ensures InOrder(writes, State().queue)
    {
      ArrayInOrder(document.queue);
      writes := document.queue;
    }

    method SetCursor(cursor: int, scope: string) returns (result: Result<int, StoreError>)
      requires Valid()
      modifies this
      ensures Valid() && (State(), result) == KeyedStore.SetCursor(old(State()), cursor, scope)
    {
      if cursor < 0 || cursor > MAX_SAFE {
        return Failure(InvalidCursor);
      }
      var index := IndexOf(document.cursors, scope);
      if index >= 0 && cursor < document.cursors[index].value {
        return Failure(CursorMovedBackwards);
      }
      var cursors := PutItem(document.cursors, scope, cursor);
      Commit(document.rows, document.queue, document.nextSeq, cursors);
      return Success(cursor);
    }

    method Enqueue(write: QueuedWrite) returns (n: nat)
      requires Valid()
      modifies this
      ensures Valid() && (State(), n) == KeyedStore.Enqueue(old(State()), write)
    {
      n := document.nextSeq;
      var stored := write.(attempts := 0);
      PushWrite(document.queue, n, stored);
      Commit(document.rows, document.queue + [Item(n, stored)], n + 1, document.cursors);
    }

    method EnqueueOptimistic(write: QueuedWrite, row: JsValue) returns (result: Result<nat, StoreError>)
      requires Valid()
      modifies this
      ensures Valid()
      ensures if write.rowKey.table !in tables then result == Failure(TableNotConfigured) && State() == old(State())
              else result.Success? &&
                   (State(), result.value) == KeyedStore.EnqueueOptimistic(old(State()), write, row)
    {
      if write.rowKey.table !in tables {
        return Failure(TableNotConfigured);
      }
      var rows := OptimisticRow(document.rows, write, row);
      var n := document.nextSeq;
      var stored := write.(attempts := 0);
      PushWrite(document.queue, n, stored);
      EnqueueForm(State(), write, row);
      Commit(rows, document.queue + [Item(n, stored)], n + 1, document.cursors);
      return Success(n);
    }

    method SettleAck(k: RowKey, n: nat, committed: Version) returns (result: Result<AckOutcome, StoreError>)
      requires Valid()
      modifies this
      ensures Valid()
      ensures if k.table !in tables then result == Failure(TableNotConfigured) && State() == old(State())
              else (State(), result) == KeyedStore.SettleAck(old(State()), k, n, committed)
    {
      if k.table !in tables {
        return Failure(TableNotConfigured);
      }
      var writes := document.queue;
      var found := IndexOf(writes, n);
      if found < 0 {
        Commit(document.rows, writes, document.nextSeq, document.cursors);
        return Success(Missing);
      }
      if writes[found].value.rowKey != k {
        return Failure(IdentityChanged);
      }
      ghost var s := State();
      ArrayInOrder(writes);
      AckForm(s, writes, k, n, committed);
      var rows, adopted := AcknowledgeRow(document.rows, k, committed, SomeOther(writes, k, n));
      RetireAndCommit(rows, k, n, committed);
      return Success(if adopted then Adopt(committed) else Superseded);
    }

    method SettlePessimistic(k: RowKey, n: nat, committed: Version) returns (result: Result<AckOutcome, StoreError>)
      requires Valid()
      modifies this
      ensures Valid()
      ensures if k.table !in tables then result == Failure(TableNotConfigured) && State() == old(State())
              else (State(), result) == KeyedStore.SettlePessimistic(old(State()), k, n, committed)
    {
      if k.table !in tables {
        return Failure(TableNotConfigured);
      }
      var writes := document.queue;
      var found := IndexOf(writes, n);
      if found < 0 {
        Commit(document.rows, writes, document.nextSeq, document.cursors);
        return Success(Missing);
      }
      var write := writes[found].value;
      if write.rowKey != k {
        return Failure(IdentityChanged);
      }
      ghost var s := State();
      ArrayInOrder(writes);
      PessimisticForm(s, writes, k, n, committed);
      var rows := document.rows;
      var index := IndexOf(rows, k);
      var preserveNewer := index >= 0 && rows[index].value.dirty && SomeNewer(writes, k, n);
      var outcome := Adopt(committed);
      if preserveNewer {
        var existing := rows[index].value;
        rows := PutItem(rows, k, existing.(version := Max(existing.version, committed), dirty := true));
        outcome := Superseded;
      } else if write.op.Delete? {
        rows := DeleteItem(rows, k);
      } else {
        rows := PutItem(rows, k, Record(write.payload, committed, SomeOther(writes, k, n)));
      }
      RetireAndCommit(rows, k, n, committed);
      return Success(outcome);
    }

    method AdoptEcho(event: ChangeEvent, n: nat) returns (result: Result<bool, StoreError>)
      requires Valid()
      modifies this
      ensures Valid()
      ensures if event.rowKey.table !in tables then result == Failure(TableNotConfigured) && State() == old(State())
              else (State(), result) == KeyedStore.AdoptEcho(old(State()), event, n)
    {
      var k := event.rowKey;
      if k.table !in tables {
        return Failure(TableNotConfigured);
      }
      var writes := document.queue;
      var found := IndexOf(writes, n);
      if found < 0 {
        Commit(document.rows, writes, document.nextSeq, document.cursors);
        return Success(false);
      }
      var echo := writes[found].value;
      if echo.rowKey != k {
        return Failure(IdentityChanged);
      }
      ghost var s := State();
      ArrayInOrder(writes);
      EchoForm(s, writes, event, n);
      var rows := AdoptRow(document.rows, event, echo, SomeOther(writes, k, n), SomeNewer(writes, k, n));
      RetireAndCommit(rows, k, n, event.version);
      return Success(true);
    }

    method ResolveConflict(event: ChangeEvent, stale: set<nat>) returns (result: Result<(), StoreError>)
      requires Valid()
      modifies this
      ensures Valid()
      ensures if event.rowKey.table !in tables then result == Failure(TableNotConfigured) && State() == old(State())
              else result == Success(()) && State() == KeyedStore.ResolveConflict(old(State()), event, stale)
    {
      var k := event.rowKey;
      if k.table !in tables {
        return Failure(TableNotConfigured);
      }
      var writes := document.queue;
      ghost var s := State();
      ArrayInOrder(writes);
      ConflictForm(s, writes, event, stale);
      var rows := ResolveRow(document.rows, event, SomeFresh(writes, k, stale));
      var queue := Without(writes, stale);
      Commit(rows, queue, document.nextSeq, document.cursors);
      return Success(());
    }

    method BumpAttempts(n: nat) returns (attempts: nat)
      requires Valid()
      modifies this
      ensures Valid() && (State(), attempts) == KeyedStore.BumpAttempts(old(State()), n)
    {
      var writes := document.queue;
      var found := IndexOf(writes, n);
      if found < 0 {
        Commit(document.rows, writes, document.nextSeq, document.cursors);
        return 0;
      }
      var bumped := writes[found].value.(attempts := writes[found].value.attempts + 1);
      Replace(writes, found, Item(n, bumped));
      Commit(document.rows, writes[found := Item(n, bumped)], document.nextSeq, document.cursors);
      return bumped.attempts;
    }
  }

  /** The row part of an optimistic write. */
  method OptimisticRow(rows: seq<StoredRow>, write: QueuedWrite, row: JsValue) returns (rows': seq<StoredRow>)
    requires Unique(rows)
    ensures Unique(rows')
    ensures MapOf(rows') == if write.op.Delete? then MapOf(rows) - {write.rowKey}
                            else MapOf(rows)[write.rowKey := Record(row, write.baseVersion, true)]
  {
    if write.op.Delete? {
      rows' := DeleteItem(rows, write.rowKey);
    } else {
      rows' := PutItem(rows, write.rowKey, Record(row, write.baseVersion, true));
    }
  }

  /** The row part of an acknowledgement. */
  method AcknowledgeRow(rows: seq<StoredRow>, k: RowKey, committed: Version, pending: bool)
    returns (rows': seq<StoredRow>, adopted: bool)
    requires Unique(rows)
    ensures Unique(rows') && MapOf(rows') == AckRows(MapOf(rows), k, committed, pending)
    ensures adopted <==> k in MapOf(rows) && MapOf(rows)[k].version <= committed
  {
    rows', adopted := rows, false;
    var index := IndexOf(rows, k);
    if index >= 0 {
      var rec := rows[index].value;
      if rec.version <= committed {
        rec := rec.(version := committed);
        adopted := true;
      }
      rows' := PutItem(rows, k, rec.(dirty := pending));
    }
  }

  /** The row part of adopting an echo. */
  method AdoptRow(rows: seq<StoredRow>, event: ChangeEvent, echo: QueuedWrite, pending: bool, newer: bool)
    returns (rows': seq<StoredRow>)
    requires Unique(rows)
    ensures Unique(rows') && MapOf(rows') == EchoRows(MapOf(rows), event, echo, pending, newer)
  {
    var k := event.rowKey;
    var index := IndexOf(rows, k);
    rows' := rows;
    if echo.superseded.Some? && echo.superseded.value >= event.version {
      if index >= 0 {
        rows' := PutItem(rows, k, rows[index].value.(dirty := pending));
      }
    } else if !newer {
      if index < 0 || event.version >= rows[index].value.version {
        if event.op.Delete? {
          rows' := DeleteItem(rows, k);
        } else {
          rows' := PutItem(rows, k, Record(event.row, event.version, pending));
        }
      } else {
        rows' := PutItem(rows, k, rows[index].value.(dirty := pending));
      }
    } else if index >= 0 {
      var existing := rows[index].value;
      rows' := PutItem(rows, k, existing.(version := Max(existing.version, event.version), dirty := true));
    }
  }

  /** The row part of resolving a conflict. */
  method ResolveRow(rows: seq<StoredRow>, event: ChangeEvent, newer: bool) returns (rows': seq<StoredRow>)
    requires Unique(rows)
    ensures Unique(rows') && MapOf(rows') == ConflictRows(MapOf(rows), event, newer)
  {
    var k := event.rowKey;
    var index := IndexOf(rows, k);
    rows' := rows;
    if !newer {
      if event.op.Delete? {
        rows' := DeleteItem(rows, k);
      } else {
        rows' := PutItem(rows, k, Record(event.row, event.version, false));
      }
    } else if index >= 0 {
      var existing := rows[index].value;
      rows' := PutItem(rows, k, existing.(version := Max(existing.version, event.version), dirty := true));
    }
  }
}
