/** Cold-start hydration (langs/typescript/src/client.mjs:542-578): what reconciling a snapshot
    of a table and pruning what is not in it make of the replica. */
module Hydration {
  import opened Wrappers
  import opened Merge
  import opened ReconcileCore
  import opened RowMachine
  import opened KeyedStore
  import opened OrderIndependence

  /** JavaScript's `String(value)` and `Number(value)`, the latter on versions. */
  datatype Conversions = Conversions(text: JsValue -> string, number: JsValue -> Version)

  datatype HydrateCounts = HydrateCounts(applied: nat, ignored: nat, conflicts: nat, pruned: nat)

  /** `value?.[name] ?? undefined`: a property that is neither undefined nor null. */
  function Property(value: JsValue, name: string): Option<JsValue> {
    if value.Object? && name in value.fields && !value.fields[name].Undefined? && !value.fields[name].Null?
    then Some(value.fields[name]) else None
  }

  /** The identity of a row value; a value without one is skipped. */
  function IdOf(row: JsValue, js: Conversions): Option<string> {
    var id := Property(row, "id");
    if id.Some? then Some(js.text(id.value)) else None
  }

  function SnapshotEvent(table: string, id: string, row: JsValue, js: Conversions): ChangeEvent {
    var version := Property(row, "version");
    ChangeEvent(RowKey(table, id), Upsert, if version.Some? then js.number(version.value) else 0, row, None)
  }

  function SnapshotEvents(table: string, rows: seq<JsValue>, js: Conversions): seq<ChangeEvent> {
    if rows == [] then []
    else
      var last := rows[|rows| - 1];
      var id := IdOf(last, js);
      SnapshotEvents(table, rows[..|rows| - 1], js)
      + (if id.Some? then [SnapshotEvent(table, id.value, last, js)] else [])
  }

  /** The identities found in a list of row values. */
  function IdsIn(values: seq<JsValue>, js: Conversions): set<string> {
    set v | v in values && IdOf(v, js).Some? :: IdOf(v, js).value
  }

  /** The identities that the stored rows of a table carry in their values. */
  function NamedIds(s: Replica, table: string, js: Conversions): set<string> {
    set k | k in s.rows && k.table == table && IdOf(s.rows[k].row, js).Some? :: IdOf(s.rows[k].row, js).value
  }

  function Tallied(res: HydrateCounts, outcome: ApplyOutcome): HydrateCounts {
    match outcome
    case Applied => res.(applied := res.applied + 1)
    case EchoAdopted => res.(applied := res.applied + 1)
    case Refreshed => res.(applied := res.applied + 1)
    case ConflictResolved => res.(conflicts := res.conflicts + 1)
    case Ignored => res.(ignored := res.ignored + 1)
  }

  /** The outcomes of a delivery, change by change. */
  function Outcomes(s: Replica, events: seq<ChangeEvent>): (outcomes: seq<ApplyOutcome>)
    ensures |outcomes| == |events|
  {
    if events == [] then []
    else
      var last := |events| - 1;
      Outcomes(s, events[..last]) + [ApplyChange(DeliverAll(s, events[..last]), events[last]).1]
  }

  /** How often each outcome occurs, as `hydrate` reports it. */
  function Tally(s: Replica, events: seq<ChangeEvent>): HydrateCounts {
    Counted(Outcomes(s, events))
  }

  function Counted(outcomes: seq<ApplyOutcome>): HydrateCounts {
    var m := multiset(outcomes);
    HydrateCounts(m[Applied] + m[EchoAdopted] + m[Refreshed], m[Ignored], m[ConflictResolved], 0)
  }

  lemma {:induction false} TallyOneMore(s: Replica, events: seq<ChangeEvent>, e: ChangeEvent)
    ensures Tally(s, events + [e]) == Tallied(Tally(s, events), ApplyChange(DeliverAll(s, events), e).1)
  {
    assert (events + [e])[..|events|] == events;
    CountedOneMore(Outcomes(s, events), ApplyChange(DeliverAll(s, events), e).1);
  }

  lemma CountedOneMore(outcomes: seq<ApplyOutcome>, outcome: ApplyOutcome)
    ensures Counted(outcomes + [outcome]) == Tallied(Counted(outcomes), outcome)
  {
    CountOneMore(outcomes, outcome);
  }

  lemma CountOneMore(outcomes: seq<ApplyOutcome>, outcome: ApplyOutcome)
    ensures forall o :: multiset(outcomes + [outcome])[o] == multiset(outcomes)[o] + if o == outcome then 1 else 0
  {
    assert multiset(outcomes + [outcome]) == multiset(outcomes) + multiset{outcome};
  }

  /** What one more snapshot row does to the replica and to the counts. */
  lemma {:induction false} HydrateOneMore(s: Replica, table: string, rows: seq<JsValue>, js: Conversions, i: nat)
    requires i < |rows|
    ensures var before, after := SnapshotEvents(table, rows[..i], js), SnapshotEvents(table, rows[..i + 1], js);
            var id := IdOf(rows[i], js);
            if id.None? then after == before
            else
              var event := SnapshotEvent(table, id.value, rows[i], js);
              var (s', outcome) := ApplyChange(DeliverAll(s, before), event);
              DeliverAll(s, after) == s' && Tally(s, after) == Tallied(Tally(s, before), outcome)
  {
    var before, id := SnapshotEvents(table, rows[..i], js), IdOf(rows[i], js);
    SnapshotOneMore(table, rows, js, i);
    if id.Some? {
      var event := SnapshotEvent(table, id.value, rows[i], js);
      DeliverOneMore(s, before, event);
      TallyOneMore(s, before, event);
    }
  }

  /** The row value carries the identity. */
  predicate Carries(value: JsValue, id: string, js: Conversions) {
    && value.Object? && "id" in value.fields && !value.fields["id"].Undefined? && !value.fields["id"].Null?
    && js.text(value.fields["id"]) == id
  }

  ghost predicate InSnapshot(rows: seq<JsValue>, id: string, js: Conversions) {
    exists row :: row in rows && Carries(row, id, js)
  }

  /** A row that no pruning may remove: in the snapshot, dirty, of another table or without an
      identity. */
  ghost predicate Safe(s: Replica, k: RowKey, table: string, rows: seq<JsValue>, js: Conversions)
    requires k in s.rows
  {
    k.table != table || s.rows[k].dirty || k.id == "" || InSnapshot(rows, k.id, js)
  }

  /** What pruning leaves of `s`: every safe row, and of the others none that carries its own
      identity. */
  ghost predicate Leaves(s: Replica, s': Replica, table: string, rows: seq<JsValue>, prune: bool, js: Conversions) {
    && s' == s.(rows := s'.rows)
    && (forall k :: k in s'.rows ==> k in s.rows && s'.rows[k] == s.rows[k])
    && (forall k :: k in s.rows && (!prune || Safe(s, k, table, rows, js)) ==> k in s'.rows)
    && (forall k :: k in s'.rows && prune && Carries(s'.rows[k].row, k.id, js) ==> Safe(s, k, table, rows, js))
  }

  lemma SeenIsInSnapshot(rows: seq<JsValue>, id: string, js: Conversions)
    ensures id in IdsIn(rows, js) <==> InSnapshot(rows, id, js)
  {
    if id in IdsIn(rows, js) {
      var row :| row in rows && IdOf(row, js) == Some(id);
      assert Carries(row, id, js);
    }
    if InSnapshot(rows, id, js) {
      var row :| row in rows && Carries(row, id, js);
      assert IdOf(row, js) == Some(id);
    }
  }

  lemma PruningLeaves(s: Replica, table: string, rows: seq<JsValue>, prune: bool, js: Conversions)
    ensures var gone := if prune then Pruned(s, table, IdsIn(rows, js), NamedIds(s, table, js)) else {};
            Leaves(s, s.(rows := s.rows - gone), table, rows, prune, js)
  {
    forall k: RowKey ensures k.id in IdsIn(rows, js) <==> InSnapshot(rows, k.id, js) {
      SeenIsInSnapshot(rows, k.id, js);
    }
    forall k | k in s.rows && k.table == table && Carries(s.rows[k].row, k.id, js)
      ensures k.id in NamedIds(s, table, js)
    {
      assert IdOf(s.rows[k].row, js) == Some(k.id);
    }
  }

  ghost predicate DistinctIds(rows: seq<JsValue>, js: Conversions) {
    forall i, j, id :: 0 <= i < j < |rows| && Carries(rows[i], id, js) ==> !Carries(rows[j], id, js)
  }

  /** The version that a row value carries, 0 if none. */
  function CarriedVersion(value: JsValue, js: Conversions): Version {
    if value.Object? && "version" in value.fields && !value.fields["version"].Undefined?
       && !value.fields["version"].Null?
    then js.number(value.fields["version"]) else 0
  }

  /** The store holds the snapshot: each row that carries an identity under it, clean, with its
      own payload and version, and nothing else. */
  ghost predicate Stocks(s: Replica, table: string, rows: seq<JsValue>, js: Conversions) {
    && (forall i, id :: 0 <= i < |rows| && Carries(rows[i], id, js) ==>
          RowKey(table, id) in s.rows
          && s.rows[RowKey(table, id)] == Record(rows[i], CarriedVersion(rows[i], js), false))
    && (forall k :: k in s.rows ==> k.table == table && InSnapshot(rows, k.id, js))
  }

  lemma {:induction false} SnapshotStocks(s: Replica, table: string, rows: seq<JsValue>, js: Conversions)
    requires Valid(s) && s.rows == map[] && s.queue == map[] && DistinctIds(rows, js)
    ensures var s' := DeliverAll(s, SnapshotEvents(table, rows, js));
            Settled(s') && Stocks(s', table, rows, js)
    decreases |rows|
  {
    if rows != [] {
      var last := |rows| - 1;
      SnapshotStocks(s, table, rows[..last], js);
      assert rows == rows[..last] + [rows[last]];
      OneMoreSnapshotRow(s, table, rows[..last], rows[last], js);
    }
  }

  lemma {:induction false} OneMoreSnapshotRow(s: Replica, table: string, rows: seq<JsValue>, row: JsValue,
                                              js: Conversions)
    requires DistinctIds(rows + [row], js)
    requires var s' := DeliverAll(s, SnapshotEvents(table, rows, js)); Settled(s') && Stocks(s', table, rows, js)
    ensures var s' := DeliverAll(s, SnapshotEvents(table, rows + [row], js));
            Settled(s') && Stocks(s', table, rows + [row], js)
  {
    assert (rows + [row])[..|rows|] == rows;
    var events, id := SnapshotEvents(table, rows, js), IdOf(row, js);
    if id.Some? {
      OneMoreStocked(DeliverAll(s, events), table, rows, row, id.value, js);
      DeliverOneMore(s, events, SnapshotEvent(table, id.value, row, js));
    } else {
      NoMoreStocked(DeliverAll(s, events), table, rows, row, js);
      assert events + [] == events;
    }
  }

  lemma NoMoreStocked(s: Replica, table: string, rows: seq<JsValue>, row: JsValue, js: Conversions)
    requires Stocks(s, table, rows, js) && IdOf(row, js).None?
    ensures Stocks(s, table, rows + [row], js)
  {
    forall k | k in s.rows ensures InSnapshot(rows + [row], k.id, js) {
      var other :| other in rows && Carries(other, k.id, js);
      assert other in rows + [row];
    }
  }

  lemma OneMoreStocked(s: Replica, table: string, rows: seq<JsValue>, row: JsValue, id: string, js: Conversions)
    requires Settled(s) && Stocks(s, table, rows, js) && DistinctIds(rows + [row], js) && IdOf(row, js) == Some(id)
    ensures var s' := ApplyChange(s, SnapshotEvent(table, id, row, js)).0;
            Settled(s') && Stocks(s', table, rows + [row], js)
  {
    var k, e := RowKey(table, id), SnapshotEvent(table, id, row, js);
    var s', more := ApplyChange(s, e).0, rows + [row];
    NewId(rows, row, id, js);
    forall j: RowKey
      ensures Settled(s')
      ensures RowAt(s', j).rec == if j == k then Some(Record(row, CarriedVersion(row, js), false)) else RowAt(s, j).rec
    {
      ApplySettled(s, e, j);
    }
    assert forall j: RowKey :: j in s'.rows <==> RowAt(s', j).rec.Some?;
    forall i, id' | 0 <= i < |more| && Carries(more[i], id', js)
      ensures RowKey(table, id') in s'.rows
              && s'.rows[RowKey(table, id')] == Record(more[i], CarriedVersion(more[i], js), false)
    {
      StockedAt(s, s', table, rows, row, id, js, i, id');
    }
    forall j | j in s'.rows ensures j.table == table && InSnapshot(more, j.id, js) {
      if j != k {
        var other :| other in rows && Carries(other, j.id, js);
        assert other in more;
      } else {
        assert row in more;
      }
    }
  }

  lemma NewId(rows: seq<JsValue>, row: JsValue, id: string, js: Conversions)
    requires DistinctIds(rows + [row], js) && IdOf(row, js) == Some(id)
    ensures !InSnapshot(rows, id, js)
  {
    var more := rows + [row];
    forall other | other in rows ensures !Carries(other, id, js) {
      var i :| 0 <= i < |rows| && rows[i] == other;
      assert more[i] == other && Carries(more[|rows|], id, js);
    }
  }

  lemma StockedAt(s: Replica, s': Replica, table: string, rows: seq<JsValue>, row: JsValue, id: string,
                  js: Conversions, i: nat, id': string)
    requires Stocks(s, table, rows, js) && IdOf(row, js) == Some(id) && !InSnapshot(rows, id, js)
    requires i <= |rows| && Carries((rows + [row])[i], id', js)
    requires forall j: RowKey :: RowAt(s', j).rec == if j == RowKey(table, id)
                                                     then Some(Record(row, CarriedVersion(row, js), false))
                                                     else RowAt(s, j).rec
    ensures var k := RowKey(table, id');
            k in s'.rows && s'.rows[k] == Record((rows + [row])[i], CarriedVersion((rows + [row])[i], js), false)
  {
    var k := RowKey(table, id');
    assert RowAt(s', k).rec == if k in s'.rows then Some(s'.rows[k]) else None;
    if i < |rows| {
      assert rows[i] in rows && id' != id;
      assert RowAt(s, k).rec == Some(s.rows[k]);
    }
  }

  lemma StaysStocked(s: Replica, s': Replica, table: string, rows: seq<JsValue>, prune: bool, js: Conversions)
    requires Stocks(s, table, rows, js) && Leaves(s, s', table, rows, prune, js)
    ensures Stocks(s', table, rows, js)
  {
    forall i, id | 0 <= i < |rows| && Carries(rows[i], id, js) ensures RowKey(table, id) in s'.rows {
      assert rows[i] in rows && InSnapshot(rows, RowKey(table, id).id, js);
    }
  }

  /** A clean row that was not seen. An empty id is never pruned. */
  predicate Prunable(s: Replica, k: RowKey, seen: set<string>) {
    k in s.rows && k.id != "" && k.id !in seen && !s.rows[k].dirty
  }

  /** The prunable rows of the table among the given identities. */
  function Pruned(s: Replica, table: string, seen: set<string>, ids: set<string>): set<RowKey> {
    set k | k in s.rows && k.table == table && k.id in ids && Prunable(s, k, seen)
  }

  /** The row that a stored value lets go. */
  function PrunedFor(s: Replica, table: string, seen: set<string>, value: JsValue, js: Conversions): Option<RowKey> {
    var id := IdOf(value, js);
    if id.Some? && Prunable(s, RowKey(table, id.value), seen) then Some(RowKey(table, id.value)) else None
  }

  /** Pruning for one more value. */
  lemma PruneMore(s: Replica, table: string, seen: set<string>, values: seq<JsValue>, i: nat, js: Conversions,
                  keys: seq<RowKey>)
    requires i < |values| && KeySet(keys) == Pruned(s, table, seen, IdsIn(values[..i], js))
    ensures var s' := s.(rows := s.rows - KeySet(keys));
            var removed := PrunedFor(s', table, seen, values[i], js);
            var keys' := if removed.Some? then keys + [removed.value] else keys;
            && KeySet(keys') == Pruned(s, table, seen, IdsIn(values[..i + 1], js))
            && |KeySet(keys')| == |KeySet(keys)| + (if removed.Some? then 1 else 0)
            && s.rows - KeySet(keys') == if removed.Some? then s'.rows - {removed.value} else s'.rows
  {
    IdsOneMore(values, i, js);
    var s', id := s.(rows := s.rows - KeySet(keys)), IdOf(values[i], js);
    if id.Some? {
      PruneStep(s, table, seen, IdsIn(values[..i], js), id.value);
      KeysMore(keys, RowKey(table, id.value));
    }
  }

  /** Pruning one more identity. */
  lemma PruneStep(s: Replica, table: string, seen: set<string>, ids: set<string>, id: string)
    ensures var k := RowKey(table, id);
            var before := Pruned(s, table, seen, ids);
            var s' := s.(rows := s.rows - before);
            var one := if Prunable(s', k, seen) then {k} else {};
            && Pruned(s, table, seen, ids + {id}) == before + one
            && before !! one
            && s.rows - (before + one) == s'.rows - one
  {
  }

  function KeySet(keys: seq<RowKey>): set<RowKey> {
    set k | k in keys
  }

  lemma KeysMore(keys: seq<RowKey>, k: RowKey)
    ensures KeySet(keys + [k]) == KeySet(keys) + {k}
  {
  }

  function Prunes(keys: seq<RowKey>): seq<Action> {
    if keys == [] then [] else [Prune(keys[0])] + Prunes(keys[1..])
  }

  lemma PruneIsRemoval(s: Replica, k: RowKey)
    requires k in s.rows ==> !s.rows[k].dirty
    ensures Step(s, Prune(k)) == s.(rows := s.rows - {k})
  {
    RowPutBack(s, k);
  }

  /** Pruning clean rows one after the other removes them. */
  lemma {:induction false} PrunesAreRemoval(s: Replica, keys: seq<RowKey>)
    requires forall k :: k in keys && k in s.rows ==> !s.rows[k].dirty
    ensures Run(s, Prunes(keys)) == s.(rows := s.rows - KeySet(keys))
    decreases |keys|
  {
    if keys == [] {
      assert s.rows - KeySet(keys) == s.rows;
    } else {
      var s' := s.(rows := s.rows - {keys[0]});
      PruneIsRemoval(s, keys[0]);
      assert Prunes(keys)[1..] == Prunes(keys[1..]);
      PrunesAreRemoval(s', keys[1..]);
      assert KeySet(keys) == {keys[0]} + KeySet(keys[1..]);
      assert s.rows - KeySet(keys) == s'.rows - KeySet(keys[1..]);
    }
  }

  /** A snapshot is a run of deliveries and prunings. */
  lemma {:induction false} HydrateIsRun(s: Replica, events: seq<ChangeEvent>, keys: seq<RowKey>)
    requires Valid(s)
    requires var s' := DeliverAll(s, events);
             forall k :: k in KeySet(keys) && k in s'.rows ==> !s'.rows[k].dirty
    ensures var s' := DeliverAll(s, events);
            Run(s, Deliveries(events) + Prunes(keys)) == s'.(rows := s'.rows - KeySet(keys))
  {
    RunAppend(s, Deliveries(events), Prunes(keys));
    DeliveryIsRun(s, events);
    PrunesAreRemoval(DeliverAll(s, events), keys);
  }

  lemma IdsOneMore(values: seq<JsValue>, i: nat, js: Conversions)
    requires i < |values|
    ensures IdsIn(values[..i + 1], js)
         == IdsIn(values[..i], js) + (if IdOf(values[i], js).Some? then {IdOf(values[i], js).value} else {})
  {
    assert values[..i + 1] == values[..i] + [values[i]];
  }

  lemma AllAreNamed(s: Replica, table: string, values: seq<JsValue>, js: Conversions)
    requires forall v :: v in values <==> exists k :: k in s.rows && k.table == table && s.rows[k].row == v
    ensures IdsIn(values, js) == NamedIds(s, table, js)
  {
    forall id | id in IdsIn(values, js) ensures id in NamedIds(s, table, js) {
      var v :| v in values && IdOf(v, js) == Some(id);
      var k :| k in s.rows && k.table == table && s.rows[k].row == v;
    }
    forall id | id in NamedIds(s, table, js) ensures id in IdsIn(values, js) {
      var k :| k in s.rows && k.table == table && IdOf(s.rows[k].row, js) == Some(id);
      assert s.rows[k].row in values;
    }
  }

  lemma {:induction false} SnapshotOneMore(table: string, rows: seq<JsValue>, js: Conversions, i: nat)
    requires i < |rows|
    ensures SnapshotEvents(table, rows[..i + 1], js)
         == var id := IdOf(rows[i], js);
            if id.Some? then SnapshotEvents(table, rows[..i], js) + [SnapshotEvent(table, id.value, rows[i], js)]
            else SnapshotEvents(table, rows[..i], js)
  {
    assert rows[..i + 1][..i] == rows[..i];
  }
}
