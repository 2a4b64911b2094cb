/** Several transports deliver the same committed changes, in any order and any number of
    times: exactly when the store they leave depends only on what was delivered. */
module OrderIndependence {
  import opened Wrappers
  import opened ReconcileCore
  import opened RowMachine
  import opened KeyedStore

  function DeliverAll(s: Replica, events: seq<ChangeEvent>): Replica
    decreases |events|
  {
    if events == [] then s else DeliverAll(ApplyChange(s, events[0]).0, events[1..])
  }

  /** No write is queued, so no row is dirty. */
  ghost predicate Settled(s: Replica) {
    Valid(s) && s.queue == map[] && forall k :: k in s.rows ==> !s.rows[k].dirty
  }

  ghost predicate SameSet(events: seq<ChangeEvent>, events': seq<ChangeEvent>) {
    forall e :: e in events <==> e in events'
  }

  ghost predicate Upserts(events: seq<ChangeEvent>) {
    forall e :: e in events ==> e.op.Upsert?
  }

  predicate Rivals(e: ChangeEvent, e': ChangeEvent) {
    e.op.Upsert? && e'.op.Upsert? && e.rowKey == e'.rowKey && e.version == e'.version
  }

  ghost predicate OnePayloadPerVersion(events: seq<ChangeEvent>) {
    forall e, e' :: e in events && e' in events && Rivals(e, e') ==> e.row == e'.row
  }

  // ------------------------------------------------------- one row of a settled store

  /** What a change makes of a row for which nothing is queued. */
  function Delivered(rec: Option<Record>, e: ChangeEvent): Option<Record> {
    if rec.Some? && e.version < rec.value.version then rec else ServerRecord(e, false)
  }

  /** What a delivery makes of row `k`. */
  function RecAfter(rec: Option<Record>, events: seq<ChangeEvent>, k: RowKey): Option<Record>
    decreases |events|
  {
    if events == [] then rec
    else RecAfter(if events[0].rowKey == k then Delivered(rec, events[0]) else rec, events[1..], k)
  }

  lemma ApplySettled(s: Replica, e: ChangeEvent, k: RowKey)
    requires Settled(s)
    ensures Settled(ApplyChange(s, e).0)
    ensures ApplyChange(s, e).0.nextSeq == s.nextSeq && ApplyChange(s, e).0.cursors == s.cursors
    ensures RowAt(ApplyChange(s, e).0, k).rec
         == if e.rowKey == k then Delivered(RowAt(s, k).rec, e) else RowAt(s, k).rec
  {
    var s' := ApplyChange(s, e).0;
    assert RowAt(s, e.rowKey).queue == map[];
    assert s'.queue == map[];
    DeliverIsApply(s, e);
    StepIsLocal(s, Deliver(e), k);
    forall j | j in s'.rows ensures !s'.rows[j].dirty {
      assert j == e.rowKey || (j in s.rows && s'.rows[j] == s.rows[j]);
    }
  }

  /** A delivery to a settled store works on each row by itself. */
  lemma {:induction false} DeliverAllSettled(s: Replica, events: seq<ChangeEvent>, k: RowKey)
    requires Settled(s)
    ensures Settled(DeliverAll(s, events))
    ensures DeliverAll(s, events).nextSeq == s.nextSeq && DeliverAll(s, events).cursors == s.cursors
    ensures RowAt(DeliverAll(s, events), k).rec == RecAfter(RowAt(s, k).rec, events, k)
    decreases |events|
  {
    if events != [] {
      ApplySettled(s, events[0], k);
      DeliverAllSettled(ApplyChange(s, events[0]).0, events[1..], k);
    }
  }

  lemma SameRows(a: Replica, b: Replica)
    requires forall k :: RowAt(a, k).rec == RowAt(b, k).rec
    ensures a.rows == b.rows
  {
    forall k: RowKey ensures k in a.rows <==> k in b.rows
                     ensures k in a.rows ==> a.rows[k] == b.rows[k] {
      assert RowAt(a, k).rec == RowAt(b, k).rec;
    }
  }

  lemma {:induction false} DeliverAppend(s: Replica, events: seq<ChangeEvent>, more: seq<ChangeEvent>)
    ensures DeliverAll(s, events + more) == DeliverAll(DeliverAll(s, events), more)
    decreases |events|
  {
    if events == [] {
      assert events + more == more;
    } else {
      assert (events + more)[1..] == events[1..] + more;
      DeliverAppend(ApplyChange(s, events[0]).0, events[1..], more);
    }
  }

  lemma {:induction false} DeliverOneMore(s: Replica, events: seq<ChangeEvent>, e: ChangeEvent)
    ensures DeliverAll(s, events + [e]) == ApplyChange(DeliverAll(s, events), e).0
  {
    DeliverAppend(s, events, [e]);
    assert [e][1..] == [];
    assert DeliverAll(DeliverAll(s, events), [e]) == ApplyChange(DeliverAll(s, events), e).0;
  }

  function Deliveries(events: seq<ChangeEvent>): seq<Action> {
    if events == [] then [] else [Deliver(events[0])] + Deliveries(events[1..])
  }

  /** A delivery is a run. */
  lemma {:induction false} DeliveryIsRun(s: Replica, events: seq<ChangeEvent>)
    requires Valid(s)
    ensures Run(s, Deliveries(events)) == DeliverAll(s, events)
    decreases |events|
  {
    if events != [] {
      DeliverIsApply(s, events[0]);
      StepIsLocal(s, Deliver(events[0]), events[0].rowKey);
      DeliveryIsRun(ApplyChange(s, events[0]).0, events[1..]);
      assert Deliveries(events)[1..] == Deliveries(events[1..]);
    }
  }

  // --------------------------------------------------------------- upserts only

  /** `rec` is the highest version of row `k` among `start` and the events, an event
      counting over a start of its own version. */
  ghost predicate Highest(rec: Option<Record>, start: Option<Record>, events: seq<ChangeEvent>, k: RowKey) {
    if rec.None? then start.None? && forall e :: e in events ==> e.rowKey != k
    else
      && !rec.value.dirty
      && (start.Some? ==> start.value.version <= rec.value.version)
      && (forall e :: e in events && e.rowKey == k ==> e.version <= rec.value.version)
      && (|| CarriedBy(rec.value, events, k)
          || (rec == start && forall e :: e in events && e.rowKey == k ==> e.version < rec.value.version))
  }

  ghost predicate CarriedBy(rec: Record, events: seq<ChangeEvent>, k: RowKey) {
    exists e :: e in events && e.rowKey == k && e.version == rec.version && e.row == rec.row
  }

  lemma CarriedAlso(rec: Record, events: seq<ChangeEvent>, k: RowKey)
    requires events != [] && CarriedBy(rec, events[1..], k)
    ensures CarriedBy(rec, events, k)
  {
    var e :| e in events[1..] && e.rowKey == k && e.version == rec.version && e.row == rec.row;
    assert e in events;
  }

  lemma {:induction false} RecIsHighest(rec: Option<Record>, events: seq<ChangeEvent>, k: RowKey)
    requires Upserts(events) && (rec.Some? ==> !rec.value.dirty)
    ensures Highest(RecAfter(rec, events, k), rec, events, k)
    decreases |events|
  {
    if events != [] {
      var e, rest := events[0], events[1..];
      assert forall x :: x in events <==> x == e || x in rest;
      var rec' := if e.rowKey == k then Delivered(rec, e) else rec;
      RecIsHighest(rec', rest, k);
      var last := RecAfter(rec, events, k);
      if last.Some? && CarriedBy(last.value, rest, k) {
        CarriedAlso(last.value, events, k);
      } else if last.Some? && e.rowKey == k && last == Some(Record(e.row, e.version, false)) {
        assert CarriedBy(last.value, events, k);
      }
    }
  }

  /** Every row ends at the highest version delivered, with that version's payload. */
  lemma {:induction false} DeliveryKeepsHighest(s: Replica, events: seq<ChangeEvent>, k: RowKey)
    requires Settled(s) && Upserts(events)
    ensures Settled(DeliverAll(s, events))
    ensures DeliverAll(s, events).nextSeq == s.nextSeq && DeliverAll(s, events).cursors == s.cursors
    ensures Highest(RowAt(DeliverAll(s, events), k).rec, RowAt(s, k).rec, events, k)
  {
    DeliverAllSettled(s, events, k);
    RecIsHighest(RowAt(s, k).rec, events, k);
  }

  // ------------------------------------------------------------ upserts and deletions

  ghost predicate NothingUpserted(events: seq<ChangeEvent>, k: RowKey) {
    forall e :: e in events && e.rowKey == k ==> e.op.Delete?
  }

  /** The deletion is older than the row at the start, or than some upsert of the row. */
  ghost predicate Overtaken(rec: Option<Record>, events: seq<ChangeEvent>, deletion: ChangeEvent) {
    || (rec.Some? && deletion.version < rec.value.version)
    || exists u :: u in events && u.rowKey == deletion.rowKey && u.op.Upsert? && deletion.version < u.version
  }

  /** The order in which the events reach row `k` does not matter: none of them upserts the
      row, or every deletion of the row is overtaken whatever comes when. */
  ghost predicate OrderFree(rec: Option<Record>, events: seq<ChangeEvent>, k: RowKey) {
    || NothingUpserted(events, k)
    || forall d :: d in events && d.rowKey == k && d.op.Delete? ==> Overtaken(rec, events, d)
  }

  /** `best` is at least as new as everything that could compete for row `k`. */
  ghost predicate Dominates(best: Record, rec: Option<Record>, events: seq<ChangeEvent>, k: RowKey) {
    && (rec.Some? ==> rec.value.version <= best.version)
    && (forall e :: e in events && e.rowKey == k && e.op.Upsert? ==>
          e.version <= best.version && (e.version == best.version ==> e.row == best.row))
  }

  /** `best` is among what competes for row `k`. */
  ghost predicate Competes(best: Record, rec: Option<Record>, events: seq<ChangeEvent>, k: RowKey) {
    || rec == Some(best)
    || exists e :: e in events && e.rowKey == k && e.op.Upsert? && e.version == best.version
  }

  lemma {:induction false} BestExists(rec: Option<Record>, events: seq<ChangeEvent>, k: RowKey) returns (best: Record)
    requires OnePayloadPerVersion(events) && (rec.Some? ==> !rec.value.dirty)
    requires rec.Some? || !NothingUpserted(events, k)
    ensures !best.dirty && Dominates(best, rec, events, k) && Competes(best, rec, events, k)
    decreases |events|
  {
    if events == [] {
      return rec.value;
    }
    var e, rest := events[0], events[1..];
    assert forall x :: x in events <==> x == e || x in rest;
    if rec.None? && NothingUpserted(rest, k) {
      return Record(e.row, e.version, false);
    }
    best := BestExists(rec, rest, k);
    if e.rowKey == k && e.op.Upsert? && best.version <= e.version {
      best := Record(e.row, e.version, false);
    } else if x :| x in rest && x.rowKey == k && x.op.Upsert? && x.version == best.version {
      assert x in events;
    }
  }

  /** The best competitor wins in every order, if every deletion is older. */
  lemma {:induction false} BestWins(rec: Option<Record>, events: seq<ChangeEvent>, k: RowKey, best: Record)
    requires !best.dirty && Dominates(best, rec, events, k) && Competes(best, rec, events, k)
    requires forall d :: d in events && d.rowKey == k && d.op.Delete? ==> d.version < best.version
    ensures RecAfter(rec, events, k) == Some(best)
    decreases |events|
  {
    if events != [] {
      var e, rest := events[0], events[1..];
      assert forall x :: x in events <==> x == e || x in rest;
      var rec' := if e.rowKey == k then Delivered(rec, e) else rec;
      if rec' != Some(best) {
        var x :| x in events && x.rowKey == k && x.op.Upsert? && x.version == best.version;
        assert x in rest;
      }
      BestWins(rec', rest, k, best);
    }
  }

  lemma {:induction false} DeletionsOnly(rec: Option<Record>, events: seq<ChangeEvent>, k: RowKey)
    requires NothingUpserted(events, k)
    ensures RecAfter(rec, events, k)
         == if rec.Some? && (forall d :: d in events && d.rowKey == k ==> d.version < rec.value.version) then rec
            else None
    decreases |events|
  {
    if events != [] {
      var e, rest := events[0], events[1..];
      assert forall x :: x in events <==> x == e || x in rest;
      DeletionsOnly(if e.rowKey == k then Delivered(rec, e) else rec, rest, k);
    }
  }

  lemma {:induction false} FreeOrder(rec: Option<Record>, events: seq<ChangeEvent>, events': seq<ChangeEvent>,
                                     k: RowKey)
    requires OnePayloadPerVersion(events) && SameSet(events, events') && (rec.Some? ==> !rec.value.dirty)
    requires OrderFree(rec, events, k)
    ensures RecAfter(rec, events, k) == RecAfter(rec, events', k)
  {
    if NothingUpserted(events, k) {
      DeletionsOnly(rec, events, k);
      DeletionsOnly(rec, events', k);
    } else {
      var best := BestExists(rec, events, k);
      BestWins(rec, events, k, best);
      BestWins(rec, events', k, best);
    }
  }

  lemma {:induction false} RecAppend(rec: Option<Record>, events: seq<ChangeEvent>, e: ChangeEvent)
    ensures RecAfter(rec, events + [e], e.rowKey) == Delivered(RecAfter(rec, events, e.rowKey), e)
    decreases |events|
  {
    if events == [] {
      assert events + [e] == [e] && [e][1..] == [];
    } else {
      assert (events + [e])[1..] == events[1..] + [e];
      RecAppend(if events[0].rowKey == e.rowKey then Delivered(rec, events[0]) else rec, events[1..], e);
    }
  }

  lemma {:induction false} VersionIsBounded(rec: Option<Record>, events: seq<ChangeEvent>, d: ChangeEvent)
    requires !Overtaken(rec, events, d)
    ensures !Overtaken(RecAfter(rec, events, d.rowKey), [], d)
    decreases |events|
  {
    if events != [] {
      var e, rest := events[0], events[1..];
      assert forall x :: x in rest ==> x in events;
      VersionIsBounded(if e.rowKey == d.rowKey then Delivered(rec, e) else rec, rest, d);
    }
  }

  /** A deletion that nothing overtakes has the last word if it comes last, and none if an
      upsert comes after it. */
  lemma {:induction false} DeletionDecides(rec: Option<Record>, events: seq<ChangeEvent>, d: ChangeEvent,
                                           u: ChangeEvent)
    requires d.op.Delete? && u.op.Upsert? && u.rowKey == d.rowKey && !Overtaken(rec, events, d)
    ensures RecAfter(rec, events + [d], d.rowKey).None?
    ensures RecAfter(rec, events + [d, u], d.rowKey).Some?
  {
    VersionIsBounded(rec, events, d);
    RecAppend(rec, events, d);
    assert events + [d, u] == events + [d] + [u];
    RecAppend(rec, events + [d], u);
  }

  /** Two deliveries of the same set leave different stores. */
  ghost predicate OrderShows(s: Replica, events: seq<ChangeEvent>) {
    exists e1, e2 :: SameSet(events, e1) && SameSet(events, e2) && DeliverAll(s, e1) != DeliverAll(s, e2)
  }

  lemma {:induction false} BoundOrder(s: Replica, events: seq<ChangeEvent>, k: RowKey)
    requires Settled(s) && !OrderFree(RowAt(s, k).rec, events, k)
    ensures OrderShows(s, events)
  {
    var rec := RowAt(s, k).rec;
    var u :| u in events && u.rowKey == k && u.op.Upsert?;
    var d :| d in events && d.rowKey == k && d.op.Delete? && !Overtaken(rec, events, d);
    DeletionDecides(rec, events, d, u);
    DeliverAllSettled(s, events + [d], k);
    DeliverAllSettled(s, events + [d, u], k);
    assert SameSet(events, events + [d]) && SameSet(events, events + [d, u]);
  }

  lemma {:induction false} FreeStore(s: Replica, events: seq<ChangeEvent>, events': seq<ChangeEvent>)
    requires Settled(s) && OnePayloadPerVersion(events) && SameSet(events, events')
    requires forall k :: OrderFree(RowAt(s, k).rec, events, k)
    ensures DeliverAll(s, events) == DeliverAll(s, events')
  {
    var a, b := DeliverAll(s, events), DeliverAll(s, events');
    forall k: RowKey ensures RowAt(a, k).rec == RowAt(b, k).rec {
      DeliverAllSettled(s, events, k);
      DeliverAllSettled(s, events', k);
      assert OrderFree(RowAt(s, k).rec, events, k);
      FreeOrder(RowAt(s, k).rec, events, events', k);
    }
    DeliverAllSettled(s, events, RowKey("", ""));
    DeliverAllSettled(s, events', RowKey("", ""));
    SameRows(a, b);
  }

  /** The deliveries of a set of changes, in any order and with any repeats, all leave the
      same store if and only if each row is upserted by none of them or has every deletion
      overtaken: a deleted row leaves no tombstone, so an older upsert could revive it. */
  lemma {:induction false} OrderIsIrrelevantExactly(s: Replica, events: seq<ChangeEvent>)
    requires Settled(s) && OnePayloadPerVersion(events)
    ensures (forall e1, e2 :: SameSet(events, e1) && SameSet(events, e2) ==> DeliverAll(s, e1) == DeliverAll(s, e2))
       <==> (forall k :: OrderFree(RowAt(s, k).rec, events, k))
  {
    if k :| !OrderFree(RowAt(s, k).rec, events, k) {
      BoundOrder(s, events, k);
    } else {
      forall e1, e2 | SameSet(events, e1) && SameSet(events, e2) ensures DeliverAll(s, e1) == DeliverAll(s, e2) {
        FreeStore(s, events, e1);
        FreeStore(s, events, e2);
      }
    }
  }

  /** Upserts alone: two deliveries of the same set leave the same store. */
  lemma {:induction false} DeliveryOrderIsIrrelevant(s: Replica, events: seq<ChangeEvent>, events': seq<ChangeEvent>)
    requires Settled(s) && Upserts(events) && OnePayloadPerVersion(events) && SameSet(events, events')
    ensures DeliverAll(s, events) == DeliverAll(s, events')
  {
    OrderIsIrrelevantExactly(s, events);
    assert SameSet(events, events);
  }

  /** One upsert and one deletion of a row: either order agrees exactly when the deletion is
      older than the upsert or, the row being present, older than the row. */
  lemma {:induction false} DeletionOrderMatters(s: Replica, upsert: ChangeEvent, deletion: ChangeEvent)
    requires Settled(s) && upsert.op.Upsert? && deletion.op.Delete? && upsert.rowKey == deletion.rowKey
    ensures DeliverAll(s, [upsert, deletion]) == DeliverAll(s, [deletion, upsert])
       <==> (deletion.version < upsert.version
             || (upsert.rowKey in s.rows && deletion.version < s.rows[upsert.rowKey].version))
  {
    if upsert.version <= deletion.version
       && (upsert.rowKey in s.rows ==> s.rows[upsert.rowKey].version <= deletion.version) {
      PairShows(s, upsert, deletion);
    } else {
      PairIsFree(s, upsert, deletion);
    }
  }

  lemma {:induction false} PairIsFree(s: Replica, upsert: ChangeEvent, deletion: ChangeEvent)
    requires Settled(s) && upsert.op.Upsert? && deletion.op.Delete? && upsert.rowKey == deletion.rowKey
    requires deletion.version < upsert.version
             || (upsert.rowKey in s.rows && deletion.version < s.rows[upsert.rowKey].version)
    ensures DeliverAll(s, [upsert, deletion]) == DeliverAll(s, [deletion, upsert])
  {
    var events := [upsert, deletion];
    assert SameSet(events, events) && SameSet(events, [deletion, upsert]);
    assert upsert in events;
    assert Overtaken(RowAt(s, upsert.rowKey).rec, events, deletion);
    OrderIsIrrelevantExactly(s, events);
  }

  lemma {:induction false} PairShows(s: Replica, upsert: ChangeEvent, deletion: ChangeEvent)
    requires Settled(s) && upsert.op.Upsert? && deletion.op.Delete? && upsert.rowKey == deletion.rowKey
    requires upsert.version <= deletion.version
    requires upsert.rowKey in s.rows ==> s.rows[upsert.rowKey].version <= deletion.version
    ensures DeliverAll(s, [upsert, deletion]) != DeliverAll(s, [deletion, upsert])
  {
    var k := upsert.rowKey;
    TwoEvents(RowAt(s, k).rec, upsert, deletion, k);
    TwoEvents(RowAt(s, k).rec, deletion, upsert, k);
    DeliverAllSettled(s, [upsert, deletion], k);
    DeliverAllSettled(s, [deletion, upsert], k);
  }

  lemma {:induction false} TwoEvents(rec: Option<Record>, a: ChangeEvent, b: ChangeEvent, k: RowKey)
    requires a.rowKey == b.rowKey
    ensures RecAfter(rec, [a, b], k) == if k == a.rowKey then Delivered(Delivered(rec, a), b) else rec
  {
    assert [a, b][1..] == [b] && [b][1..] == [];
    var rec' := if k == a.rowKey then Delivered(rec, a) else rec;
    assert RecAfter(rec', [b], k) == if k == b.rowKey then Delivered(rec', b) else rec';
  }

  /** A run that shows it: the upsert of a fresh row and its later deletion, in order and
      reversed. Reversed, the row stays although the server deleted it. */
  lemma {:induction false} LateUpsertRevivesRow(k: RowKey, upsert: ChangeEvent, deletion: ChangeEvent)
    requires upsert.rowKey == deletion.rowKey == k && upsert.op.Upsert? && deletion.op.Delete?
    requires upsert.version < deletion.version
    ensures Run(FRESH, [Deliver(upsert), Deliver(deletion)]).rows == map[]
    ensures Run(FRESH, [Deliver(deletion), Deliver(upsert)]).rows == map[k := Record(upsert.row, upsert.version, false)]
  {
    TwoDeliveries(upsert, deletion);
    TwoDeliveries(deletion, upsert);
  }

  lemma {:induction false} TwoDeliveries(a: ChangeEvent, b: ChangeEvent)
    requires a.rowKey == b.rowKey
    ensures var rec := Delivered(Delivered(None, a), b);
            Run(FRESH, [Deliver(a), Deliver(b)]).rows == if rec.Some? then map[a.rowKey := rec.value] else map[]
  {
    TwoAreRun(a, b);
    forall k: RowKey
      ensures RowAt(DeliverAll(FRESH, [a, b]), k).rec
           == if k == a.rowKey then Delivered(Delivered(None, a), b) else None
    {
      TwoRows(a, b, k);
    }
    OneRow(DeliverAll(FRESH, [a, b]), a.rowKey, Delivered(Delivered(None, a), b));
  }

  lemma {:induction false} TwoAreRun(a: ChangeEvent, b: ChangeEvent)
    ensures Run(FRESH, [Deliver(a), Deliver(b)]) == DeliverAll(FRESH, [a, b])
  {
    assert [a, b][1..] == [b] && [b][1..] == [];
    assert Deliveries([b]) == [Deliver(b)] + Deliveries([]);
    assert Deliveries([a, b]) == [Deliver(a), Deliver(b)];
    DeliveryIsRun(FRESH, [a, b]);
  }

  lemma {:induction false} TwoRows(a: ChangeEvent, b: ChangeEvent, k: RowKey)
    requires a.rowKey == b.rowKey
    ensures RowAt(DeliverAll(FRESH, [a, b]), k).rec
         == if k == a.rowKey then Delivered(Delivered(None, a), b) else None
  {
    DeliverAllSettled(FRESH, [a, b], k);
    TwoEvents(RowAt(FRESH, k).rec, a, b, k);
  }

  lemma OneRow(s: Replica, k: RowKey, rec: Option<Record>)
    requires forall j :: RowAt(s, j).rec == if j == k then rec else None
    ensures s.rows == if rec.Some? then map[k := rec.value] else map[]
  {
    forall j: RowKey ensures j in s.rows <==> j == k && rec.Some?
                     ensures j in s.rows ==> s.rows[j] == rec.value {
      assert RowAt(s, j).rec == if j == k then rec else None;
    }
  }
}
