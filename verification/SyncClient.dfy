/** The sync client over its store (langs/typescript/src/client.mjs) and the catch-up loop
    (langs/typescript/src/start.mjs). Local transitions run one at a time, so each method
    below is one turn of the mutation gate, or a sequence of them. */
module SyncClient {
  import opened Wrappers
  import opened Merge
  import opened ReconcileCore
  import opened RowMachine
  import opened KeyedStore
  import opened AssocArray
  import opened Guarantees
  import opened IndexedDb
  import opened Hydration
  import opened OrderIndependence
  import opened Paging
  import opened CatchUp
  import opened Convergence

  const MAX_PAGES := 10000

  // --------------------------------------------------------- looking at the queue

  function OfRowOnly(items: seq<Queued>, k: RowKey): seq<Queued> {
    if items == [] then []
    else
      var last := items[|items| - 1];
      OfRowOnly(items[..|items| - 1], k) + (if OfRow(last, k) then [last] else [])
  }

  /** `items.filter(write => write.table === ... && write.id === ...)`. */
  method RowWrites(items: seq<Queued>, k: RowKey, ghost s: Replica) returns (writes: seq<Queued>)
    requires InOrder(items, s.queue)
    ensures InOrder(writes, RowAt(s, k).queue)
    ensures writes == [] <==> RowAt(s, k).queue == map[]
    ensures (set c | c in writes :: c.key) == RowAt(s, k).queue.Keys
  {
    writes := [];
    for i := 0 to |items|
      invariant writes == OfRowOnly(items[..i], k)
    {
      assert items[..i + 1][..i] == items[..i];
      if OfRow(items[i], k) {
        writes := writes + [items[i]];
      }
    }
    assert items[..|items|] == items;
    FilterKeepsOrder(items, k);
    FilteredIsRow(items, k, s);
    ListedKeys(writes, RowAt(s, k).queue);
  }

  lemma ListedKeys(writes: seq<Queued>, queue: Queue)
    requires InOrder(writes, queue)
    ensures writes == [] <==> queue == map[]
    ensures (set c | c in writes :: c.key) == queue.Keys
  {
    if writes != [] {
      assert writes[0].key in queue;
    }
    forall n | n in queue ensures n in set c | c in writes :: c.key {
      assert Item(n, queue[n]) in writes;
    }
  }

  lemma {:induction false} FilterKeepsOrder(items: seq<Queued>, k: RowKey)
    requires forall i, j :: 0 <= i < j < |items| ==> items[i].key < items[j].key
    ensures var writes := OfRowOnly(items, k);
            && (forall c :: c in writes <==> c in items && OfRow(c, k))
            && (forall i, j :: 0 <= i < j < |writes| ==> writes[i].key < writes[j].key)
    decreases |items|
  {
    if items != [] {
      var last := |items| - 1;
      var before := OfRowOnly(items[..last], k);
      FilterKeepsOrder(items[..last], k);
      forall i | 0 <= i < |before| ensures before[i].key < items[last].key {
        assert before[i] in items[..last];
      }
      assert items == items[..last] + [items[last]];
    }
  }

  lemma {:induction false} FilteredIsRow(items: seq<Queued>, k: RowKey, s: Replica)
    requires InOrder(items, s.queue)
    ensures InOrder(OfRowOnly(items, k), RowAt(s, k).queue)
  {
    var writes, q := OfRowOnly(items, k), RowAt(s, k).queue;
    FilterKeepsOrder(items, k);
    forall i | 0 <= i < |writes| ensures writes[i].key in q && q[writes[i].key] == writes[i].value {
      assert writes[i] in items;
    }
    forall n | n in q ensures Item(n, q[n]) in writes {
      assert Item(n, s.queue[n]) in items;
    }
  }

  /** `rowWrites.find(write => core.isOwnEcho(write, event))`. */
  method FirstEcho(writes: seq<Queued>, e: ChangeEvent, ghost queue: Queue) returns (found: Option<nat>)
    requires InOrder(writes, queue)
    ensures found == FindEcho(queue, e)
  {
    for i := 0 to |writes|
      invariant forall j :: 0 <= j < i ==> !IsEchoOf(writes[j].value, e)
    {
      if IsEchoOf(writes[i].value, e) {
        FirstIsFound(writes, e, queue, i);
        return Some(writes[i].key);
      }
    }
    assert forall n :: n in queue ==> Item(n, queue[n]) in writes;
    return None;
  }

  lemma FirstIsFound(writes: seq<Queued>, e: ChangeEvent, queue: Queue, i: nat)
    requires InOrder(writes, queue) && i < |writes| && IsEchoOf(writes[i].value, e)
    requires forall j :: 0 <= j < i ==> !IsEchoOf(writes[j].value, e)
    ensures FindEcho(queue, e) == Some(writes[i].key)
  {
    var m := FindEcho(queue, e).value;
    assert Item(m, queue[m]) in writes;
    var j :| 0 <= j < |writes| && writes[j] == Item(m, queue[m]);
  }

  /** `rowWrites.reduce((latest, write) => Math.max(latest, write.base_version), ...)`. */
  method MaxBase(writes: seq<Queued>, ghost queue: Queue) returns (latest: Version)
    requires InOrder(writes, queue) && writes != []
    ensures queue != map[] && latest == LatestBase(queue)
  {
    latest := writes[0].value.baseVersion;
    assert writes[0].key in queue;
    for i := 0 to |writes|
      invariant exists j :: 0 <= j < |writes| && latest == writes[j].value.baseVersion
      invariant forall j :: 0 <= j < i ==> writes[j].value.baseVersion <= latest
    {
      latest := Max(latest, writes[i].value.baseVersion);
    }
    ghost var v := LatestBase(queue);
    ghost var m :| m in queue && queue[m].baseVersion == v;
    assert Item(m, queue[m]) in writes;
  }

  /** Dropping all writes of a row resolves the conflict to the server's row. */
  lemma ConflictDropsRow(s: Replica, e: ChangeEvent)
    ensures KeyedStore.ResolveConflict(s, e, RowAt(s, e.rowKey).queue.Keys)
         == WithRow(s, e.rowKey, RowConflict(RowAt(s, e.rowKey).rec, map[], e))
  {
    var k := e.rowKey;
    var s' := s.(queue := s.queue - RowAt(s, k).queue.Keys);
    assert RowAt(s', k).queue == map[];
    var r := RowConflict(RowAt(s, k).rec, map[], e);
    assert WithRow(s', k, r).queue == WithRow(s, k, r).queue;
  }

  /** A row nothing is queued for is replaced by a plain put or delete. */
  lemma ServerRowIsPut(s: Replica, e: ChangeEvent)
    requires RowAt(s, e.rowKey).queue == map[]
    ensures WithRow(s, e.rowKey, RowState(ServerRecord(e, false), map[]))
         == s.(rows := if e.op.Delete? then s.rows - {e.rowKey}
                       else s.rows[e.rowKey := Record(e.row, e.version, false)])
  {
    RowPutBack(s, e.rowKey);
  }

  datatype SendResult = Acked(id: string, committed: int) | SendFailed

  /** `validateAck`. */
  predicate ValidAck(write: QueuedWrite, response: SendResult) {
    response.Acked? && response.id == write.rowKey.id && 0 <= response.committed <= MAX_SAFE
  }

  datatype WriteStatus = AckedStatus(outcome: AckOutcome) | AckedViaEcho | StillQueued(attempts: nat)

  /** The local transition that the response to a send causes. */
  function ResponseAction(n: nat, write: QueuedWrite, response: SendResult): Action {
    if ValidAck(write, response) then Ack(n, response.committed) else FailedSend(n)
  }

  class Client {
    const store: IndexedDbStore

    constructor (store: IndexedDbStore)
      ensures this.store == store
    {
      this.store := store;
    }

    /** `applyServer`. */
    method ApplyServer(event: ChangeEvent)
      requires store.Valid()
      modifies store
      ensures store.Valid()
      ensures store.State() == old(store.State()).(
                rows := if event.op.Delete? then old(store.rows) - {event.rowKey}
                        else old(store.rows)[event.rowKey := Record(event.row, event.version, false)])
    {
      if event.op.Delete? {
        store.Del(event.rowKey);
      } else {
        store.Put(event.rowKey, event.row, event.version, false);
      }
    }

    /** Reconcile one incoming committed change against the local store. */
    method ApplyChange(event: ChangeEvent) returns (outcome: ApplyOutcome)
      requires store.Valid()
      modifies store
      ensures store.Valid()
      ensures (store.State(), outcome) == KeyedStore.ApplyChange(old(store.State()), event)
    {
      ghost var s := store.State();
      var k := event.rowKey;
      DeliverIsApply(s, event);
      StepIsLocal(s, Deliver(event), k);
      var local := store.GetMeta(k);
      var items := store.GetAll();
      var rowWrites := RowWrites(items, k, s);
      ghost var q := RowAt(s, k).queue;
      var echo := FirstEcho(rowWrites, event, q);
      if echo.Some? {
        var adopted := store.AdoptEcho(event, echo.value);
        return EchoAdopted;
      }
      var reconcileLocal := local;
      if rowWrites != [] {
        if local.None? {
          var latest := MaxBase(rowWrites, q);
          reconcileLocal := Some(LocalRow(latest, true));
        } else {
          reconcileLocal := Some(LocalRow(local.value.version, true));
        }
      }
      var decision := Reconcile(reconcileLocal, event);
      if decision.Apply? {
        ServerRowIsPut(s, event);
        ApplyServer(event);
        return Applied;
      }
      if decision.Conflict? {
        var staleSeqs := set c | c in rowWrites :: c.key;
        ConflictDropsRow(s, event);
        store.ResolveConflict(event, staleSeqs);
        return ConflictResolved;
      }
      if decision.reason.AlreadyApplied? && rowWrites == [] && (local.None? || !local.value.dirty) {
        ServerRowIsPut(s, event);
        ApplyServer(event);
        return Refreshed;
      }
      RowPutBack(s, k);
      return Ignored;
    }

    /** The local half of `write()`: persist the resend intent, visible at once unless the
        strategy is pessimistic. */
    method QueueWrite(k: RowKey, op: ChangeOp, row: JsValue, merge: bool, strategy: Strategy, key: string)
      returns (write: QueuedWrite, n: nat)
      requires store.Valid()
      modifies store
      ensures store.Valid()
      ensures store.State() == Step(old(store.State()), Action.Write(k, op, row, merge, strategy, key))
      ensures n == old(store.State()).nextSeq && n in store.State().queue && store.State().queue[n] == write
    {
      ghost var s := store.State();
      ghost var a := Action.Write(k, op, row, merge, strategy, key);
      WriteIsEnqueue(s, a);
      StepIsLocal(s, a, k);
      var meta := store.GetMeta(k);
      var baseVersion: Version := if meta.Some? then meta.value.version else 0;
      var localRow := row;
      if merge && !op.Delete? {
        var held := store.Get(k);
        localRow := MergeLoop(held, row, 0);
      }
      var payload := if op.Delete? then Null else localRow;
      write := QueuedWrite(k, op, payload, baseVersion, Some(key), strategy, 0, None);
      assert write == NewWrite(RowAt(s, k).rec, a);
      if strategy.Pessimistic? {
        n := store.Enqueue(write);
      } else {
        n := store.EnqueueOptimistic(write, localRow);
      }
      assert n in RowStep(RowAt(s, k), k, n, a).queue;
    }

    /** `_applyAck`: settle by the strategy of the write. */
    method Settle(n: nat, write: QueuedWrite, committed: Version) returns (result: Result<AckOutcome, StoreError>)
      requires store.Valid()
      modifies store
      ensures (store.State(), result)
           == if write.strategy.Pessimistic?
              then KeyedStore.SettlePessimistic(old(store.State()), write.rowKey, n, committed)
              else KeyedStore.SettleAck(old(store.State()), write.rowKey, n, committed)
    {
      if write.strategy.Pessimistic? {
        result := store.SettlePessimistic(write.rowKey, n, committed);
      } else {
        result := store.SettleAck(write.rowKey, n, committed);
      }
    }

    /** What `write()` and `flushQueue` do with the response to a send: a valid
        acknowledgement settles the write, anything else is counted as a failed attempt,
        unless an echo retired the write meanwhile. */
    method FinishSend(n: nat, write: QueuedWrite, response: SendResult) returns (status: WriteStatus)
      requires store.Valid()
      requires n in store.queue ==> store.queue[n].rowKey == write.rowKey && store.queue[n].strategy == write.strategy
      modifies store
      ensures store.Valid()
      ensures store.State() == Step(old(store.State()), ResponseAction(n, write, response))
      ensures status.StillQueued? <==> n in store.State().queue
      ensures status.StillQueued? ==>
                status.attempts == store.State().queue[n].attempts == old(store.queue)[n].attempts + 1
      ensures status.AckedStatus? <==> ValidAck(write, response)
      ensures status.AckedStatus? ==>
                Success(status.outcome) ==
                if write.strategy.Pessimistic?
                then KeyedStore.SettlePessimistic(old(store.State()), write.rowKey, n, response.committed).1
                else KeyedStore.SettleAck(old(store.State()), write.rowKey, n, response.committed).1
    {
      ghost var s := store.State();
      StepIsLocal(s, ResponseAction(n, write, response), write.rowKey);
      if ValidAck(write, response) {
        AckIsSettlement(s, n, write.rowKey, response.committed);
        var result := Settle(n, write, response.committed);
        if n in s.queue {
          assert n !in RowAt(store.State(), write.rowKey).queue;
        }
        return AckedStatus(result.value);
      }
      FailedSendIsBump(s, n);
      var attempts := store.BumpAttempts(n);
      return if attempts == 0 then AckedViaEcho else StillQueued(attempts);
    }

    /** One transition of the client, whatever it is: every action of the run model is a
        method of the client or of its store. */
    method Perform(a: Action)
      requires store.Valid()
      modifies store
      ensures store.Valid() && store.State() == Step(old(store.State()), a)
    {
      ghost var s := store.State();
      StepIsLocal(s, a, RowKey("", ""));
      match a
      case Write(k, op, row, merge, strategy, key) =>
        var write, n := QueueWrite(k, op, row, merge, strategy, key);
      case Ack(n, committed) =>
        if n in store.queue {
          AckIsSettlement(s, n, store.queue[n].rowKey, committed);
          var result := Settle(n, store.queue[n], committed);
        }
      case FailedSend(n) =>
        FailedSendIsBump(s, n);
        var attempts := store.BumpAttempts(n);
      case Deliver(event) =>
        DeliverIsApply(s, event);
        var outcome := ApplyChange(event);
      case Prune(k) =>
        var meta := store.GetMeta(k);
        if meta.Some? && !meta.value.dirty {
          PruneIsRemoval(s, k);
          store.Del(k);
        } else {
          RowPutBack(s, k);
        }
    }

    /** What else the gate lets through while the client waits for an answer. */
    method PerformAll(actions: seq<Action>)
      requires store.Valid()
      modifies store
      ensures store.Valid() && store.State() == Run(old(store.State()), actions)
    {
      ghost var s := store.State();
      for i := 0 to |actions|
        invariant store.Valid() && store.State() == Run(s, actions[..i])
      {
        RunOneMore(s, actions[..i], actions[i]);
        assert actions[..i + 1] == actions[..i] + [actions[i]];
        Perform(actions[i]);
      }
      assert actions[..|actions|] == actions;
    }

    /** `flushQueue`: re-send every write that was queued at the start once, in queue order.
        While the send of write `i` is in flight, `meanwhile(i)` happens. The replica is as
        after the run of all this, and a write is reported as failed exactly if it is still
        queued after its own response. */
    method FlushQueue(respond: QueuedWrite -> SendResult, meanwhile: nat -> seq<Action>)
      returns (flushed: nat, failures: seq<nat>, ghost writes: seq<Queued>)
      requires store.Valid()
      modifies store
      ensures store.Valid()
      ensures InOrder(writes, old(store.queue))
      ensures store.State() == Run(old(store.State()), FlushTrace(writes, respond, meanwhile))
      ensures failures == FailedKeys(old(store.State()), writes, respond, meanwhile)
      ensures flushed + |failures| == |old(store.queue)|
    {
      ghost var s := store.State();
      var listed := store.GetAll();
      writes := listed;
      flushed, failures := 0, [];
      for i := 0 to |listed|
        invariant store.Valid()
        invariant store.State() == Run(s, FlushTrace(listed[..i], respond, meanwhile))
        invariant flushed + |failures| == i && failures == FailedKeys(s, listed[..i], respond, meanwhile)
      {
        var w := listed[i];
        FlushOneMore(s, listed, respond, meanwhile, i);
        PerformAll(meanwhile(i));
        var status := FinishSend(w.key, w.value, respond(w.value));
        if status.StillQueued? {
          failures := failures + [w.key];
        } else {
          flushed := flushed + 1;
        }
      }
      assert listed[..|listed|] == listed;
      ListingSize(listed, s.queue);
    }

    /** `hydrate`: reconcile a snapshot of one table, and when it is complete also remove the
        clean rows that are not in it. */
    method Hydrate(table: string, rows: seq<JsValue>, prune: bool, js: Conversions)
      returns (res: HydrateCounts, ghost keys: seq<RowKey>)
      requires store.Valid()
      modifies store
      ensures store.Valid()
      ensures var events := SnapshotEvents(table, rows, js);
              var s' := DeliverAll(old(store.State()), events);
              var gone := if prune then Pruned(s', table, IdsIn(rows, js), NamedIds(s', table, js)) else {};
              && store.State() == s'.(rows := s'.rows - gone)
              && (var m := multiset(Outcomes(old(store.State()), events));
                  res == HydrateCounts(m[Applied] + m[EchoAdopted] + m[Refreshed], m[Ignored], m[ConflictResolved],
                                       |gone|))
              && KeySet(keys) == gone
              && store.State() == Run(old(store.State()), Deliveries(events) + Prunes(keys))
              && Leaves(s', store.State(), table, rows, prune, js)
      ensures old(store.rows) == map[] && old(store.queue) == map[] && DistinctIds(rows, js) ==>
                Stocks(store.State(), table, rows, js)
    {
      ghost var s, events := store.State(), SnapshotEvents(table, rows, js);
      keys := [];
      res := ReconcileSnapshot(table, rows, js);
      ghost var s' := store.State();
      if prune {
        var pruned;
        pruned, keys := PruneUnseen(table, IdsIn(rows, js), js);
        res := res.(pruned := pruned);
      } else {
        assert s' == s'.(rows := s'.rows - {});
      }
      HydrateIsRun(s, events, keys);
      PruningLeaves(s', table, rows, prune, js);
      if s.rows == map[] && s.queue == map[] && DistinctIds(rows, js) {
        SnapshotStocks(s, table, rows, js);
        StaysStocked(s', store.State(), table, rows, prune, js);
      }
    }

    method ReconcileSnapshot(table: string, rows: seq<JsValue>, js: Conversions) returns (res: HydrateCounts)
      requires store.Valid()
      modifies store
      ensures store.Valid()
      ensures store.State() == DeliverAll(old(store.State()), SnapshotEvents(table, rows, js))
      ensures res == Tally(old(store.State()), SnapshotEvents(table, rows, js))
    {
      ghost var s := store.State();
      res := HydrateCounts(0, 0, 0, 0);
      for i := 0 to |rows|
        invariant store.Valid()
        invariant store.State() == DeliverAll(s, SnapshotEvents(table, rows[..i], js))
        invariant res == Tally(s, SnapshotEvents(table, rows[..i], js))
      {
        HydrateOneMore(s, table, rows, js, i);
        var id := IdOf(rows[i], js);
        if id.Some? {
          var outcome := ApplyChange(SnapshotEvent(table, id.value, rows[i], js));
          res := Tallied(res, outcome);
        }
      }
      assert rows[..|rows|] == rows;
    }

    method PruneUnseen(table: string, seen: set<string>, js: Conversions)
      returns (pruned: nat, ghost keys: seq<RowKey>)
      requires store.Valid()
      modifies store
      ensures store.Valid()
      ensures var gone := Pruned(old(store.State()), table, seen, NamedIds(old(store.State()), table, js));
              && store.State() == old(store.State()).(rows := old(store.rows) - gone)
              && pruned == |gone| && KeySet(keys) == gone
    {
      ghost var s := store.State();
      var values, listed := store.All(table);
      pruned, keys := 0, [];
      for i := 0 to |values|
        invariant store.Valid()
        invariant KeySet(keys) == Pruned(s, table, seen, IdsIn(values[..i], js)) && pruned == |KeySet(keys)|
        invariant store.State() == s.(rows := s.rows - KeySet(keys))
      {
        PruneMore(s, table, seen, values, i, js, keys);
        var removed := PruneValue(table, values[i], seen, js);
        if removed.Some? {
          pruned, keys := pruned + 1, keys + [removed.value];
        }
      }
      assert values[..|values|] == values;
      AllAreNamed(s, table, values, js);
    }

    /** Remove the row that a stored value names, if it was not seen and is clean. */
    method PruneValue(table: string, value: JsValue, seen: set<string>, js: Conversions)
      returns (removed: Option<RowKey>)
      requires store.Valid()
      modifies store
      ensures store.Valid()
      ensures removed == PrunedFor(old(store.State()), table, seen, value, js)
      ensures store.State()
           == old(store.State()).(rows := if removed.Some? then old(store.rows) - {removed.value} else old(store.rows))
    {
      var id := IdOf(value, js);
      if id.Some? && id.value != "" && id.value !in seen {
        var k := RowKey(table, id.value);
        var meta := store.GetMeta(k);
        if meta.Some? && !meta.value.dirty {
          store.Del(k);
          return Some(k);
        }
      }
      return None;
    }

    /** Reconcile the changes of the page after `cursor` in order, stopping at a malformed one;
        after `j` of them, `meanwhile(cursor, j)` happens. */
    method ReconcilePage(changes: seq<Incoming>, cursor: int, meanwhile: (int, nat) -> seq<Action>)
      returns (whole: bool)
      requires store.Valid()
      modifies store
      ensures store.Valid()
      ensures store.State() == Run(old(store.State()), TurnTrace(meanwhile, cursor, Sound(changes)))
      ensures whole <==> |Sound(changes)| == |changes|
    {
      ghost var s, sound := store.State(), Sound(changes);
      PerformAll(meanwhile(cursor, 0));
      for i := 0 to |changes|
        invariant store.Valid() && i <= |sound|
        invariant store.State() == Run(s, TurnTrace(meanwhile, cursor, sound[..i]))
      {
        if changes[i].Malformed? {
          assert sound[..i] == sound;
          return false;
        }
        TurnOneMore(s, meanwhile, cursor, sound, i);
        ghost var before := store.State();
        DeliverIsApply(before, changes[i].event);
        var outcome := ApplyChange(changes[i].event);
        PerformAll(meanwhile(cursor, i + 1));
      }
      assert sound[..|changes|] == sound;
      return true;
    }

    /** One page of `pullAll`: check it, apply it, then advance the durable cursor past it. */
    method PullPage(fetch: int -> Option<Page>, meanwhile: (int, nat) -> seq<Action>, cursor: int, scope: string)
      returns (next: int, stop: Option<Result<(), PullError>>)
      requires store.Valid() && cursor == GetCursor(store.State(), scope)
      modifies store
      ensures store.Valid()
      ensures var turn := PullTurn(fetch, cursor);
              && next == turn.cursor && stop == turn.stop
              && Progress(old(store.State()), store.State(), scope, TurnTrace(meanwhile, cursor, turn.events), next)
    {
      next := cursor;
      ghost var s := store.State();
      var answer := fetch(cursor);
      ProgressRun(s, scope, TurnTrace(meanwhile, cursor, PullTurn(fetch, cursor).events));
      if answer.None? || CheckPage(answer.value, cursor).Failure? {
        PerformAll(meanwhile(cursor, 0));
        stop := Some(Failure(if answer.None? then InvalidPage else CheckPage(answer.value, cursor).error));
        return;
      }
      var page := answer.value;
      var whole := ReconcilePage(page.changes, cursor, meanwhile);
      if !whole {
        stop := Some(Failure(InvalidChange));
        return;
      }
      ProgressSave(s, store.State(), scope, TurnTrace(meanwhile, cursor, Sound(page.changes)), cursor,
                   page.nextCursor);
      var saved := store.SetCursor(page.nextCursor, scope);
      next := page.nextCursor;
      stop := if page.hasMore then None else Some(Success(()));
    }

    /** `pullAll`: page after page until the last one, a failure or the page limit. */
    method PullAll(fetch: int -> Option<Page>, meanwhile: (int, nat) -> seq<Action>, pageSize: int, scope: string)
      returns (result: Result<(), PullError>)
      requires store.Valid()
      modifies store
      ensures store.Valid()
      ensures Pulled(old(store.State()), store.State(), fetch, meanwhile, pageSize, scope, result)
    {
      if pageSize < 1 || pageSize > MAX_PAGE_SIZE {
        return Failure(InvalidPageSize);
      }
      ghost var s := store.State();
      var cursor := store.LoadCursor(scope);
      ghost var start := cursor;
      ghost var done: seq<Action> := [];
      var pageNumber := 0;
      PulledNothing(s, scope, fetch, meanwhile, MAX_PAGES);
      while pageNumber < MAX_PAGES
        invariant pageNumber <= MAX_PAGES
        invariant store.Valid()
        invariant Pulling(s, store.State(), scope, fetch, meanwhile, start, MAX_PAGES, done, cursor,
                          MAX_PAGES - pageNumber)
      {
        ghost var turn := PullTurn(fetch, cursor);
        ghost var before, at := store.State(), cursor;
        var next, stop := PullPage(fetch, meanwhile, cursor, scope);
        PulledOneMore(s, before, store.State(), scope, fetch, meanwhile, start, MAX_PAGES, done, cursor,
                      MAX_PAGES - pageNumber);
        done := done + TurnTrace(meanwhile, at, turn.events);
        cursor := next;
        if stop.Some? {
          return stop.value;
        }
        pageNumber := pageNumber + 1;
      }
      assert done + [] == done;
      return Failure(PageLimit);
    }
  }

  // ------------------------------------------------------------------ what a pull does

  /** The run of one turn: the changes of its page, and what happens before, between and
      after them. */
  function TurnTrace(meanwhile: (int, nat) -> seq<Action>, cursor: int, events: seq<ChangeEvent>): seq<Action> {
    if events == [] then meanwhile(cursor, 0)
    else
      var last := |events| - 1;
      TurnTrace(meanwhile, cursor, events[..last]) + ([Deliver(events[last])] + meanwhile(cursor, |events|))
  }

  /** The run of a whole pull. */
  function PullTrace(turns: int -> Turn, meanwhile: (int, nat) -> seq<Action>, cursor: int, pages: nat): seq<Action>
    decreases pages, cursor
  {
    if pages == 0 then []
    else
      var turn := turns(cursor);
      TurnTrace(meanwhile, cursor, turn.events)
      + if turn.stop.Some? then [] else PullTrace(turns, meanwhile, turn.cursor, pages - 1)
  }

  /** What a pull does to the replica: nothing if the page size is refused, else the run of
      its turns, with the cursor of the last one saved. */
  ghost predicate Pulled(s: Replica, s': Replica, fetch: int -> Option<Page>, meanwhile: (int, nat) -> seq<Action>,
                         pageSize: int, scope: string, result: Result<(), PullError>)
  {
    if pageSize < 1 || pageSize > 1000 then result == Failure(InvalidPageSize) && s' == s
    else
      var pull := PullPages(Turns(fetch), GetCursor(s, scope), MAX_PAGES);
      && result == pull.result
      && Progress(s, s', scope, PullTrace(Turns(fetch), meanwhile, GetCursor(s, scope), MAX_PAGES), pull.cursor)
  }

  /** What a page must be: only a safe cursor behind which the page's own lies strictly lets a
      turn reconcile anything or move on, and a turn moves on only if every change of the page
      was sound. */
  lemma PageLaw(fetch: int -> Option<Page>, cursor: int)
    ensures var turn := PullTurn(fetch, cursor);
            && (turn.events != [] || turn.cursor != cursor ==>
                  fetch(cursor).Some? && cursor < fetch(cursor).value.nextCursor <= 9007199254740991)
            && (turn.cursor != cursor || turn.stop.None? || turn.stop.value.Success? ==>
                  && fetch(cursor).Some? && turn.cursor == fetch(cursor).value.nextCursor
                  && (forall i :: 0 <= i < |fetch(cursor).value.changes| ==>
                        i < |turn.events| && fetch(cursor).value.changes[i] == Change(turn.events[i]))
                  && (turn.stop.None? <==> fetch(cursor).value.hasMore))
  {
  }

  /** A pull refuses no page size between 1 and 1000, and stops on its own limit only after ten
      thousand turns that all went on. */
  lemma {:induction false} PullLimits(fetch: int -> Option<Page>, cursor: int, pages: nat)
    ensures PullPages(Turns(fetch), cursor, pages).result != Failure(InvalidPageSize)
    ensures PullPages(Turns(fetch), cursor, pages).result == Failure(PageLimit) ==> GoesOn(fetch, cursor, pages)
    ensures MAX_PAGES == 10_000
    decreases pages
  {
    if pages > 0 {
      PullLimits(fetch, PullTurn(fetch, cursor).cursor, pages - 1);
    }
  }

  predicate GoesOn(fetch: int -> Option<Page>, cursor: int, pages: nat)
    decreases pages
  {
    pages > 0 ==> PullTurn(fetch, cursor).stop.None? && GoesOn(fetch, PullTurn(fetch, cursor).cursor, pages - 1)
  }

  /** A response settles the write only if it names the row's id and a safe version; any other
      counts as one more failed attempt. */
  lemma ResponseLaw(s: Replica, n: nat, write: QueuedWrite, response: SendResult)
    requires Valid(s) && n in s.queue && s.queue[n].rowKey == write.rowKey
    ensures var s' := Step(s, ResponseAction(n, write, response));
            if response.Acked? && response.id == write.rowKey.id && 0 <= response.committed <= 9007199254740991
            then s' == Step(s, Ack(n, response.committed)) && n !in s'.queue
            else s'.rows == s.rows
                 && s'.queue == s.queue[n := s.queue[n].(attempts := s.queue[n].attempts + 1)]
  {
    if ValidAck(write, response) {
      AckRetires(s, n, response.committed);
    } else {
      FailedSendIsBump(s, n);
    }
  }

  lemma AckRetires(s: Replica, n: nat, committed: Version)
    requires Valid(s)
    ensures n !in Step(s, Ack(n, committed)).queue
  {
    StepConserves(s, Ack(n, committed), n);
  }

  /** A pull that goes on asks a later cursor every time, so the answers to its requests are
      a function of the cursor, whatever the server does in between. */
  lemma PullAdvances(fetch: int -> Option<Page>, cursor: int)
    ensures PullTurn(fetch, cursor).stop.None? ==> cursor < PullTurn(fetch, cursor).cursor
  {
  }

  lemma {:induction false} TurnOneMore(s: Replica, meanwhile: (int, nat) -> seq<Action>, cursor: int,
                                       events: seq<ChangeEvent>, i: nat)
    requires i < |events|
    ensures Run(s, TurnTrace(meanwhile, cursor, events[..i + 1]))
         == Run(Step(Run(s, TurnTrace(meanwhile, cursor, events[..i])), Deliver(events[i])), meanwhile(cursor, i + 1))
  {
    assert events[..i + 1][..i] == events[..i];
    var before, e, more := TurnTrace(meanwhile, cursor, events[..i]), Deliver(events[i]), meanwhile(cursor, i + 1);
    RunAppend(s, before, [e] + more);
    assert ([e] + more)[1..] == more;
  }

  /** The pages so far are the run `done` and saved `cursor`; the rest of the pull follows. */
  ghost predicate Pulling(s: Replica, s': Replica, scope: string, fetch: int -> Option<Page>,
                          meanwhile: (int, nat) -> seq<Action>, start: int, all: nat, done: seq<Action>, cursor: int,
                          pages: nat)
  {
    && Progress(s, s', scope, done, cursor)
    && PullTrace(Turns(fetch), meanwhile, start, all) == done + PullTrace(Turns(fetch), meanwhile, cursor, pages)
    && SameEnd(PullPages(Turns(fetch), start, all), PullPages(Turns(fetch), cursor, pages))
  }

  predicate SameEnd(pull: Pull, rest: Pull) {
    pull.cursor == rest.cursor && pull.result == rest.result
  }

  lemma {:induction false} PulledNothing(s: Replica, scope: string, fetch: int -> Option<Page>,
                                         meanwhile: (int, nat) -> seq<Action>, pages: nat)
    ensures var cursor := GetCursor(s, scope);
            Pulling(s, s, scope, fetch, meanwhile, cursor, pages, [], cursor, pages)
  {
    var trace := PullTrace(Turns(fetch), meanwhile, GetCursor(s, scope), pages);
    assert [] + trace == trace;
  }

  lemma {:induction false} TurnFirst(turns: int -> Turn, meanwhile: (int, nat) -> seq<Action>, cursor: int, pages: nat,
                                     done: seq<Action>)
    requires 0 < pages
    ensures var turn := turns(cursor);
            var trace := done + TurnTrace(meanwhile, cursor, turn.events);
            var rest := PullPages(turns, turn.cursor, pages - 1);
            && done + PullTrace(turns, meanwhile, cursor, pages)
               == (if turn.stop.Some? then trace else trace + PullTrace(turns, meanwhile, turn.cursor, pages - 1))
            && SameEnd(PullPages(turns, cursor, pages),
                       if turn.stop.Some? then Pull([], turn.cursor, turn.stop.value) else rest)
  {
    var turn := turns(cursor);
    var trace := TurnTrace(meanwhile, cursor, turn.events);
    if turn.stop.Some? {
      assert trace + [] == trace;
    } else {
      var rest := PullTrace(turns, meanwhile, turn.cursor, pages - 1);
      assert done + (trace + rest) == done + trace + rest;
    }
  }

  lemma {:induction false} PulledOneMore(s: Replica, before: Replica, s': Replica, scope: string,
                                         fetch: int -> Option<Page>, meanwhile: (int, nat) -> seq<Action>,
                                         start: int, all: nat, done: seq<Action>, cursor: int, pages: nat)
    requires 0 < pages && Pulling(s, before, scope, fetch, meanwhile, start, all, done, cursor, pages)
    requires var turn := PullTurn(fetch, cursor);
             Progress(before, s', scope, TurnTrace(meanwhile, cursor, turn.events), turn.cursor)
    ensures var turn := PullTurn(fetch, cursor);
            var trace := done + TurnTrace(meanwhile, cursor, turn.events);
            && Progress(s, s', scope, trace, turn.cursor)
            && (if turn.stop.Some? then
                  && PullTrace(Turns(fetch), meanwhile, start, all) == trace
                  && SameEnd(PullPages(Turns(fetch), start, all), Pull([], turn.cursor, turn.stop.value))
                else Pulling(s, s', scope, fetch, meanwhile, start, all, trace, turn.cursor, pages - 1))
  {
    var turn := PullTurn(fetch, cursor);
    ProgressJoin(s, before, s', scope, done, cursor, TurnTrace(meanwhile, cursor, turn.events), turn.cursor);
    TurnFirst(Turns(fetch), meanwhile, cursor, pages, done);
  }

  // --------------------------------------------------------------- where a pull leads

  ghost predicate Quiet(meanwhile: (int, nat) -> seq<Action>) {
    forall cursor, j :: meanwhile(cursor, j) == []
  }

  lemma {:induction false} QuietTurn(meanwhile: (int, nat) -> seq<Action>, cursor: int, events: seq<ChangeEvent>)
    requires Quiet(meanwhile)
    ensures TurnTrace(meanwhile, cursor, events) == Deliveries(events)
    decreases |events|
  {
    if events != [] {
      var last := |events| - 1;
      QuietTurn(meanwhile, cursor, events[..last]);
      DeliveriesJoin(events[..last], [events[last]]);
      assert events == events[..last] + [events[last]];
      assert [events[last]][1..] == [];
      assert Deliveries([events[last]]) == [Deliver(events[last])];
    }
  }

  lemma {:induction false} DeliveriesJoin(events: seq<ChangeEvent>, more: seq<ChangeEvent>)
    ensures Deliveries(events + more) == Deliveries(events) + Deliveries(more)
    decreases |events|
  {
    if events == [] {
      assert events + more == more;
    } else {
      assert (events + more)[1..] == events[1..] + more;
      DeliveriesJoin(events[1..], more);
    }
  }

  /** With nothing in between, a pull is the delivery of the changes it visits. */
  lemma {:induction false} QuietPull(turns: int -> Turn, meanwhile: (int, nat) -> seq<Action>, cursor: int, pages: nat)
    requires Quiet(meanwhile)
    ensures PullTrace(turns, meanwhile, cursor, pages) == Deliveries(PullPages(turns, cursor, pages).events)
    decreases pages
  {
    if pages > 0 {
      var turn := turns(cursor);
      QuietTurn(meanwhile, cursor, turn.events);
      if turn.stop.None? {
        QuietPull(turns, meanwhile, turn.cursor, pages - 1);
        DeliveriesJoin(turn.events, PullPages(turns, turn.cursor, pages - 1).events);
      }
    }
  }

  /** `pullAll` against a server of either kind, from whatever a crash left behind: it
      succeeds exactly when the page limit suffices, and then the store holds the cursor of the
      journal's last entry and, if nothing came in between, the rows of one uninterrupted pass. */
  lemma {:induction false} PullAllCatchesUp(rule: Rule, journal: seq<Entry>, size: nat, start: Replica, scope: string,
                                            moves: seq<Move>, p: Puller, meanwhile: (int, nat) -> seq<Action>,
                                            s': Replica, result: Result<(), PullError>)
    requires Settled(start) && scope !in start.cursors && Ascending(journal) && VersionsRise(journal, start)
    requires Runs(journal, scope, Puller(start, 0), moves, p)
    requires 1 <= size <= MAX_PAGE_SIZE
    requires Pulled(p.store, s', Fetch(rule, journal, size), meanwhile, size, scope, result)
    ensures result.Success? <==> PagesNeeded(rule, |journal| - SavedAt(journal, scope, p.store), size) <= MAX_PAGES
    ensures result.Success? ==> GetCursor(s', scope) == CursorAt(journal, |journal|)
    ensures result.Success? && Quiet(meanwhile) ==> s'.rows == DeliverAll(start, Events(journal)).rows
  {
    var turns := Turns(Fetch(rule, journal, size));
    ServersServe(rule, journal, size);
    RestartedPullCompletes(rule, journal, size, turns, start, scope, moves, p, MAX_PAGES);
    if Quiet(meanwhile) {
      QuietPull(turns, meanwhile, GetCursor(p.store, scope), MAX_PAGES);
      ReachableInv(start, journal, scope, moves, p);
      DeliveryIsRun(p.store, PullPages(turns, GetCursor(p.store, scope), MAX_PAGES).events);
    }
  }

  /** `pullAll` with writes queued, and with new writes, acknowledgements and live changes
      arriving at any point of it: if in the run before the pull and during it the history of
      a row is delivered to its end, and nothing is queued for the row afterwards, the row is
      the server's. */
  lemma {:induction false} PullAllConverges(history: seq<ChangeEvent>, k: RowKey, start: Replica, before: seq<Action>,
                                            s: Replica, fetch: int -> Option<Page>,
                                            meanwhile: (int, nat) -> seq<Action>, size: int, scope: string,
                                            s': Replica, result: Result<(), PullError>)
    requires Valid(start) && RowAt(start, k).queue == map[] && History(history, k, RowAt(start, k).rec)
    requires 1 <= size <= MAX_PAGE_SIZE && s.(cursors := start.cursors) == Run(start, before)
    requires Pulled(s, s', fetch, meanwhile, size, scope, result) && RowAt(s', k).queue == map[]
    requires var trace := before + PullTrace(Turns(fetch), meanwhile, GetCursor(s, scope), MAX_PAGES);
             && Admissible(history, k, start, NOTHING, trace)
             && SeenBy(history, k, start, NOTHING, trace).at == |history|
    ensures RowAt(s', k).rec == ServerRow(history, RowAt(start, k).rec)
  {
    var pulled := PullTrace(Turns(fetch), meanwhile, GetCursor(s, scope), MAX_PAGES);
    RunAppend(start, before, pulled);
    CursorsCommute(s, start.cursors, pulled);
    var s'' := Run(start, before + pulled);
    assert s''.rows == s'.rows && s''.queue == s'.queue;
    assert RowAt(s'', k) == RowAt(s', k);
    RowConverges(history, k, start, before + pulled);
  }

  predicate Fails(w: Queued, respond: QueuedWrite -> SendResult) {
    !ValidAck(w.value, respond(w.value))
  }

  /** The same request after `tries` more attempts. */
  predicate Retried(before: QueuedWrite, after: QueuedWrite, tries: nat) {
    SameIntent(before, after) && after.attempts == before.attempts + tries
  }

  /** The first `i` writes of the listing were sent, the others wait as before. */
  ghost predicate FlushedSoFar(queue: map<nat, QueuedWrite>, s: Replica, writes: seq<Queued>,
                               respond: QueuedWrite -> SendResult, i: nat)
    requires i <= |writes|
  {
    && s.queue.Keys <= queue.Keys
    && InOrder(writes, queue)
    && (forall j :: i <= j < |writes| ==>
          writes[j].key in s.queue && Retried(writes[j].value, s.queue[writes[j].key], 0))
    && (forall j :: 0 <= j < i ==>
          && (writes[j].key in s.queue <==> Fails(writes[j], respond))
          && (writes[j].key in s.queue ==> Retried(writes[j].value, s.queue[writes[j].key], 1)))
  }

  /** Sending `w` removes it when it is acknowledged, counts an attempt when it is not, and
      leaves every other queued write as it is. */
  ghost predicate SentOne(s: Replica, s': Replica, w: Queued, respond: QueuedWrite -> SendResult) {
    && (forall n :: n in s'.queue <==> n in s.queue && !(n == w.key && !Fails(w, respond)))
    && (forall n :: n in s'.queue ==> Retried(s.queue[n], s'.queue[n], if n == w.key then 1 else 0))
  }

  lemma FlushStep(queue: map<nat, QueuedWrite>, s: Replica, s': Replica, writes: seq<Queued>,
                  respond: QueuedWrite -> SendResult, i: nat)
    requires i < |writes| && FlushedSoFar(queue, s, writes, respond, i) && SentOne(s, s', writes[i], respond)
    ensures FlushedSoFar(queue, s', writes, respond, i + 1)
  {
    assert forall j :: 0 <= j < |writes| && j != i ==> writes[j].key != writes[i].key;
    forall j | 0 <= j < |writes| && j != i
      ensures writes[j].key in s'.queue <==> writes[j].key in s.queue
      ensures writes[j].key in s'.queue ==> Retried(s.queue[writes[j].key], s'.queue[writes[j].key], 0)
    {
    }
  }

  /** The local transition that sending `w` comes to. */
  function Response(w: Queued, respond: QueuedWrite -> SendResult): Action {
    ResponseAction(w.key, w.value, respond(w.value))
  }

  /** The run of a flush: for each listed write, what happens while it is sent and then its
      response. */
  function FlushTrace(writes: seq<Queued>, respond: QueuedWrite -> SendResult, meanwhile: nat -> seq<Action>)
    : seq<Action>
  {
    if writes == [] then []
    else
      var last := |writes| - 1;
      FlushTrace(writes[..last], respond, meanwhile) + (meanwhile(last) + [Response(writes[last], respond)])
  }

  /** The listed writes still queued after their own response, in the order of the listing. */
  function FailedKeys(s: Replica, writes: seq<Queued>, respond: QueuedWrite -> SendResult,
                      meanwhile: nat -> seq<Action>): seq<nat>
  {
    if writes == [] then []
    else
      var last := |writes| - 1;
      FailedKeys(s, writes[..last], respond, meanwhile)
      + (if writes[last].key in Run(s, FlushTrace(writes, respond, meanwhile)).queue then [writes[last].key] else [])
  }

  /** One more write of the listing is sent; if it is still queued, then unchanged. */
  lemma {:induction false} FlushOneMore(s: Replica, writes: seq<Queued>, respond: QueuedWrite -> SendResult,
                                        meanwhile: nat -> seq<Action>, i: nat)
    requires Valid(s) && InOrder(writes, s.queue) && i < |writes|
    ensures var s' := Run(Run(s, FlushTrace(writes[..i], respond, meanwhile)), meanwhile(i));
            var after := Step(s', Response(writes[i], respond));
            && Run(s, FlushTrace(writes[..i + 1], respond, meanwhile)) == after
            && FailedKeys(s, writes[..i + 1], respond, meanwhile)
               == FailedKeys(s, writes[..i], respond, meanwhile)
                  + (if writes[i].key in after.queue then [writes[i].key] else [])
            && (writes[i].key in s'.queue ==> SameIntent(writes[i].value, s'.queue[writes[i].key]))
  {
    assert writes[..i + 1][..i] == writes[..i];
    var before, more, a := FlushTrace(writes[..i], respond, meanwhile), meanwhile(i), Response(writes[i], respond);
    RunAppend(s, before, more + [a]);
    RunOneMore(Run(s, before), more, a);
    RunAppend(s, before, more);
    if writes[i].key in Run(s, before + more).queue {
      IntentIsKept(s, before + more, writes[i].key);
    }
  }

  lemma {:induction false} RunOneMore(s: Replica, trace: seq<Action>, a: Action)
    ensures Run(s, trace + [a]) == Step(Run(s, trace), a)
  {
    RunAppend(s, trace, [a]);
    assert [a][1..] == [];
    assert Run(Run(s, trace), [a]) == Step(Run(s, trace), a);
  }

  /** A flush during which nothing else happens: the acknowledged writes leave the queue, and
      the failed ones are reported and stay, unchanged but for one more attempt. */
  lemma {:induction false} QuietFlush(s: Replica, writes: seq<Queued>, respond: QueuedWrite -> SendResult,
                                      meanwhile: nat -> seq<Action>)
    requires Valid(s) && InOrder(writes, s.queue) && forall i :: meanwhile(i) == []
    ensures var s' := Run(s, FlushTrace(writes, respond, meanwhile));
            && s'.queue.Keys == (set n | n in s.queue && !ValidAck(s.queue[n], respond(s.queue[n])))
            && (forall n :: n in s'.queue ==> Retried(s.queue[n], s'.queue[n], 1))
            && (forall n :: n in FailedKeys(s, writes, respond, meanwhile) <==> n in s'.queue)
  {
    FlushedFirst(s, writes, respond, meanwhile, |writes|);
    assert writes[..|writes|] == writes;
    var s' := Run(s, FlushTrace(writes, respond, meanwhile));
    forall n | n in s.queue
      ensures n in s'.queue <==> Fails(Item(n, s.queue[n]), respond)
      ensures n in s'.queue ==> Retried(s.queue[n], s'.queue[n], 1)
    {
      assert Item(n, s.queue[n]) in writes;
    }
    forall n: nat ensures n in FailedKeys(s, writes, respond, meanwhile) <==> n in s'.queue {
      FailedFirst(s, writes, respond, meanwhile, |writes|, n);
      if n in s'.queue {
        assert Item(n, s.queue[n]) in writes;
      }
    }
  }

  lemma {:induction false} FlushedFirst(s: Replica, writes: seq<Queued>, respond: QueuedWrite -> SendResult,
                                        meanwhile: nat -> seq<Action>, i: nat)
    requires Valid(s) && InOrder(writes, s.queue) && i <= |writes| && forall j :: meanwhile(j) == []
    ensures var s' := Run(s, FlushTrace(writes[..i], respond, meanwhile));
            Valid(s') && FlushedSoFar(s.queue, s', writes, respond, i)
    decreases i
  {
    if i > 0 {
      FlushedFirst(s, writes, respond, meanwhile, i - 1);
      FlushOneMore(s, writes, respond, meanwhile, i - 1);
      var before, w := Run(s, FlushTrace(writes[..i - 1], respond, meanwhile)), writes[i - 1];
      StepIsLocal(before, Response(w, respond), RowKey("", ""));
      Sent(before, w, respond);
      FlushStep(s.queue, before, Step(before, Response(w, respond)), writes, respond, i - 1);
    }
  }

  /** Among the first `i` writes `n` is one whose send fails. */
  ghost predicate FailsAmong(writes: seq<Queued>, respond: QueuedWrite -> SendResult, i: nat, n: nat)
    requires i <= |writes|
  {
    exists j :: 0 <= j < i && writes[j].key == n && Fails(writes[j], respond)
  }

  lemma {:induction false} FailedFirst(s: Replica, writes: seq<Queued>, respond: QueuedWrite -> SendResult,
                                       meanwhile: nat -> seq<Action>, i: nat, n: nat)
    requires Valid(s) && InOrder(writes, s.queue) && i <= |writes| && forall j :: meanwhile(j) == []
    ensures n in FailedKeys(s, writes[..i], respond, meanwhile) <==> FailsAmong(writes, respond, i, n)
    decreases i
  {
    if i > 0 {
      FailedFirst(s, writes, respond, meanwhile, i - 1, n);
      FlushOneMore(s, writes, respond, meanwhile, i - 1);
      FlushedFirst(s, writes, respond, meanwhile, i);
      assert FailsAmong(writes, respond, i, n)
        <==> FailsAmong(writes, respond, i - 1, n) || (writes[i - 1].key == n && Fails(writes[i - 1], respond));
    }
  }

  /** What the response for `w` means for any queued write `n`. */
  lemma ResponseTo(s: Replica, w: Queued, respond: QueuedWrite -> SendResult, n: nat)
    requires Valid(s) && w.key in s.queue
    ensures var s' := Step(s, ResponseAction(w.key, w.value, respond(w.value)));
            && (n in s'.queue <==> n in s.queue && !(n == w.key && !Fails(w, respond)))
            && (n in s'.queue ==> Retried(s.queue[n], s'.queue[n], if n == w.key then 1 else 0))
  {
    var a := ResponseAction(w.key, w.value, respond(w.value));
    StepConserves(s, a, n);
    assert w.key in RowAt(s, s.queue[w.key].rowKey).queue;
    if n in s.queue && n in Step(s, a).queue {
      StepCountsAttempts(s, a, n);
    }
  }

  lemma Sent(s: Replica, w: Queued, respond: QueuedWrite -> SendResult)
    requires Valid(s) && w.key in s.queue
    ensures SentOne(s, Step(s, Response(w, respond)), w, respond)
  {
    var s' := Step(s, Response(w, respond));
    forall n ensures n in s'.queue <==> n in s.queue && !(n == w.key && !Fails(w, respond)) {
      ResponseTo(s, w, respond, n);
    }
    forall n | n in s'.queue ensures Retried(s.queue[n], s'.queue[n], if n == w.key then 1 else 0) {
      ResponseTo(s, w, respond, n);
    }
  }

  lemma {:induction false} ListingSize(writes: seq<Queued>, queue: map<nat, QueuedWrite>)
    requires InOrder(writes, queue)
    ensures |writes| == |queue|
    decreases |writes|
  {
    if writes == [] {
      ListedKeys(writes, queue);
    } else {
      var last := |writes| - 1;
      var rest := queue - {writes[last].key};
      forall n | n in rest ensures Item(n, rest[n]) in writes[..last] {
        assert Item(n, queue[n]) in writes;
      }
      ListingSize(writes[..last], rest);
      assert queue.Keys == rest.Keys + {writes[last].key};
    }
  }

  /** `s'` is `s` after the run `trace`, with `cursor` saved. */
  ghost predicate Progress(s: Replica, s': Replica, scope: string, trace: seq<Action>, cursor: int) {
    && s'.(cursors := s.cursors) == Run(s, trace)
    && GetCursor(s', scope) == cursor
    && s'.cursors - {scope} == s.cursors - {scope}
  }

  /** No action looks at the cursors or moves them. */
  lemma {:induction false} CursorsCommute(s: Replica, cursors: map<string, int>, trace: seq<Action>)
    ensures Run(s, trace).(cursors := cursors) == Run(s.(cursors := cursors), trace)
    ensures Run(s, trace).cursors == s.cursors
    decreases |trace|
  {
    if trace != [] {
      StepCommutes(s, cursors, trace[0]);
      CursorsCommute(Step(s, trace[0]), cursors, trace[1..]);
    }
  }

  lemma StepCommutes(s: Replica, cursors: map<string, int>, a: Action)
    ensures Step(s, a).(cursors := cursors) == Step(s.(cursors := cursors), a)
    ensures Step(s, a).cursors == s.cursors
  {
    var target := Target(s, a);
    if target.Some? {
      assert RowAt(s.(cursors := cursors), target.value) == RowAt(s, target.value);
    }
  }

  lemma {:induction false} ProgressRun(s: Replica, scope: string, trace: seq<Action>)
    ensures Progress(s, Run(s, trace), scope, trace, GetCursor(s, scope))
  {
    CursorsCommute(s, s.cursors, trace);
  }

  lemma ProgressJoin(s: Replica, s': Replica, s'': Replica, scope: string, trace: seq<Action>, cursor: int,
                     more: seq<Action>, next: int)
    requires Progress(s, s', scope, trace, cursor) && Progress(s', s'', scope, more, next)
    ensures Progress(s, s'', scope, trace + more, next)
  {
    CursorsCommute(s', s.cursors, more);
    RunAppend(s, trace, more);
    assert s''.(cursors := s'.cursors).(cursors := s.cursors) == s''.(cursors := s.cursors);
  }

  lemma ProgressSave(s: Replica, s': Replica, scope: string, trace: seq<Action>, cursor: int, next: int)
    requires Progress(s, s', scope, trace, cursor) && cursor <= next <= MAX_SAFE && 0 <= cursor
    ensures KeyedStore.SetCursor(s', next, scope).1.Success?
    ensures Progress(s, KeyedStore.SetCursor(s', next, scope).0, scope, trace, next)
  {
    assert s'.cursors[scope := next] - {scope} == s'.cursors - {scope};
  }
}
