/** Crash-safe catch-up over the server's journal: changes are applied first and the durable
    cursor advances second, so a crash replays (langs/typescript/src/start.mjs). */
module CatchUp {
  import opened Wrappers
  import opened ReconcileCore
  import opened RowMachine
  import opened KeyedStore
  import opened OrderIndependence
  import Convergence

  /** A committed change and its place in the journal. */
  datatype Entry = Entry(sequence: int, event: ChangeEvent)

  ghost predicate Ascending(journal: seq<Entry>) {
    && (forall i :: 0 <= i < |journal| ==> 0 < journal[i].sequence <= MAX_SAFE)
    && forall i, j :: 0 <= i < j < |journal| ==> journal[i].sequence < journal[j].sequence
  }

  /** Per-row versions rise along the journal, above what the replica started from. */
  ghost predicate VersionsRise(journal: seq<Entry>, start: Replica) {
    && (forall i, j :: 0 <= i < j < |journal| && journal[i].event.rowKey == journal[j].event.rowKey ==>
          journal[i].event.version < journal[j].event.version)
    && forall i :: 0 <= i < |journal| && journal[i].event.rowKey in start.rows ==>
         start.rows[journal[i].event.rowKey].version < journal[i].event.version
  }

  function Events(journal: seq<Entry>): (events: seq<ChangeEvent>)
    ensures |events| == |journal|
  {
    seq(|journal|, i requires 0 <= i < |journal| => journal[i].event)
  }

  /** How many entries the cursor covers. */
  function Position(journal: seq<Entry>, cursor: int): (p: nat)
    ensures p <= |journal|
    ensures 0 < p ==> journal[p - 1].sequence <= cursor
    ensures p < |journal| && Ascending(journal) ==> cursor < journal[p].sequence
    decreases |journal|
  {
    if journal == [] then 0
    else if journal[|journal| - 1].sequence <= cursor then |journal|
    else Position(journal[..|journal| - 1], cursor)
  }

  /** The cursor that covers the first `at` entries. */
  function CursorAt(journal: seq<Entry>, at: nat): int
    requires at <= |journal|
  {
    if at == 0 then 0 else journal[at - 1].sequence
  }

  /** Row `k` after the first `m` entries, `start` being the row before the journal. */
  function JournalRow(start: Option<Record>, journal: seq<Entry>, k: RowKey, m: nat): Option<Record>
    requires m <= |journal|
  {
    if m == 0 then start
    else if journal[m - 1].event.rowKey == k then ServerRecord(journal[m - 1].event, false)
    else JournalRow(start, journal, k, m - 1)
  }

  // --------------------------------------------------------------- the machine

  /** One step of a replica that is catching up. `ApplyNext` reconciles the entry at the
      in-memory position, `Save` advances the durable cursor to it, `Crash` restarts from
      the durable cursor, and `Live` is a transport delivering any change of the journal that
      would not undo a later one. */
  datatype Move = ApplyNext | Save | Crash | Live(i: nat)

  datatype Puller = Puller(store: Replica, at: nat)

  ghost predicate Enabled(journal: seq<Entry>, p: Puller, move: Move) {
    match move
    case ApplyNext => p.at < |journal|
    case Save => p.at <= |journal|
    case Crash => true
    case Live(i) => p.at <= |journal| && i < |journal| && Harmless(journal, p.store, p.at, i)
  }

  /** The change is not late, or it is a deletion, or its row is there to be compared with, or
      no later change of its row was applied. */
  ghost predicate Harmless(journal: seq<Entry>, s: Replica, at: nat, i: nat)
    requires at <= |journal| && i < |journal|
  {
    || at <= i
    || journal[i].event.op.Delete?
    || journal[i].event.rowKey in s.rows
    || forall j :: i < j < at ==> journal[j].event.rowKey != journal[i].event.rowKey
  }

  function Moved(journal: seq<Entry>, scope: string, p: Puller, move: Move): Puller
    requires p.at <= |journal|
  {
    match move
    case ApplyNext =>
      if p.at < |journal| then Puller(ApplyChange(p.store, journal[p.at].event).0, p.at + 1) else p
    case Save => p.(store := SetCursor(p.store, CursorAt(journal, p.at), scope).0)
    case Crash => p.(at := Position(journal, GetCursor(p.store, scope)))
    case Live(i) =>
      if i < |journal| then p.(store := ApplyChange(p.store, journal[i].event).0) else p
  }

  ghost predicate Runs(journal: seq<Entry>, scope: string, p: Puller, moves: seq<Move>, p': Puller)
    requires p.at <= |journal|
    decreases |moves|
  {
    if moves == [] then p == p'
    else
      && Enabled(journal, p, moves[0])
      && Moved(journal, scope, p, moves[0]).at <= |journal|
      && Runs(journal, scope, Moved(journal, scope, p, moves[0]), moves[1..], p')
  }

  // ----------------------------------------------------------------- invariant

  /** Row `k` is as the journal had it at some point at or after `at`. */
  ghost predicate Matches(start: Replica, journal: seq<Entry>, s: Replica, k: RowKey, at: nat) {
    exists m: nat :: at <= m <= |journal| && RowAt(s, k).rec == JournalRow(RowAt(start, k).rec, journal, k, m)
  }

  /** The position the durable cursor stands for. */
  function SavedAt(journal: seq<Entry>, scope: string, s: Replica): (p: nat)
    ensures p <= |journal|
  {
    Position(journal, GetCursor(s, scope))
  }

  ghost predicate Inv(start: Replica, journal: seq<Entry>, scope: string, p: Puller) {
    && Settled(p.store)
    && p.at <= |journal|
    && SavedAt(journal, scope, p.store) <= p.at
    && GetCursor(p.store, scope) == CursorAt(journal, SavedAt(journal, scope, p.store))
    && forall k :: Matches(start, journal, p.store, k, p.at)
  }

  /** The journal state of a row is its latest entry: above every earlier version of the
      row, below every later one. */
  lemma {:induction false} JournalRowIsLatest(start: Replica, journal: seq<Entry>, k: RowKey, m: nat, i: nat)
    requires VersionsRise(journal, start) && m <= |journal| && i < |journal| && journal[i].event.rowKey == k
    ensures var rec := JournalRow(RowAt(start, k).rec, journal, k, m);
            rec.Some? ==>
              && (m <= i ==> rec.value.version < journal[i].event.version)
              && (i < m ==> journal[i].event.version <= rec.value.version)
              && (i < m && journal[i].event.version == rec.value.version ==>
                    rec == ServerRecord(journal[i].event, false))
  {
    if m != 0 && journal[m - 1].event.rowKey != k {
      JournalRowIsLatest(start, journal, k, m - 1, i);
    }
  }

  /** Replaying entry `i`: the row moves to its journal state just after `i`, or stays at a
      later one. Replaying an old upsert of a deleted row resurrects it for a while. */
  lemma ReplayedRow(start: Replica, journal: seq<Entry>, s: Replica, k: RowKey, m: nat, i: nat) returns (m': nat)
    requires VersionsRise(journal, start) && Settled(s) && (forall j :: j in start.rows ==> !start.rows[j].dirty)
    requires m <= |journal| && i < |journal|
    requires RowAt(s, k).rec == JournalRow(RowAt(start, k).rec, journal, k, m)
    ensures m' <= |journal| && (m' == m || m' == i + 1)
    ensures journal[i].event.rowKey == k ==> i + 1 <= m'
    ensures journal[i].event.rowKey != k ==> m' == m
    ensures m' != m && i < m ==> journal[i].event.op.Upsert? && RowAt(s, k).rec.None?
    ensures RowAt(ApplyChange(s, journal[i].event).0, k).rec
         == JournalRow(RowAt(start, k).rec, journal, k, m')
  {
    var e := journal[i].event;
    DeliverIsApply(s, e);
    StepIsLocal(s, Deliver(e), k);
    m' := m;
    if e.rowKey == k {
      JournalRowIsLatest(start, journal, k, m, i);
      assert RowAt(s, k).queue == map[];
      if RowAt(s, k).rec.None? || RowAt(s, k).rec.value.version < e.version {
        if m <= i || e.op.Upsert? {
          m' := i + 1;
        }
      }
    }
  }

  lemma ApplyKeepsSettled(s: Replica, e: ChangeEvent)
    requires Settled(s)
    ensures Settled(ApplyChange(s, e).0)
    ensures ApplyChange(s, e).0.nextSeq == s.nextSeq && ApplyChange(s, e).0.cursors == s.cursors
  {
    var s' := ApplyChange(s, e).0;
    assert RowAt(s, e.rowKey).queue == map[];
    assert s'.queue == map[];
    forall j | j in s'.rows ensures !s'.rows[j].dirty {
      assert j == e.rowKey || (j in s.rows && s'.rows[j] == s.rows[j]);
    }
  }

  /** Applying entry `i`, the next one or a later one. */
  lemma ApplyKeepsMatches(start: Replica, journal: seq<Entry>, s: Replica, k: RowKey, at: nat, i: nat)
    requires VersionsRise(journal, start) && Settled(s) && (forall j :: j in start.rows ==> !start.rows[j].dirty)
    requires at <= i < |journal| && Matches(start, journal, s, k, at)
    ensures Matches(start, journal, ApplyChange(s, journal[i].event).0, k, if i == at then at + 1 else at)
  {
    var m: nat :| at <= m <= |journal| && RowAt(s, k).rec == JournalRow(RowAt(start, k).rec, journal, k, m);
    var m' := ReplayedRow(start, journal, s, k, m, i);
    if m' == at && i == at {
      assert JournalRow(RowAt(start, k).rec, journal, k, at + 1) == JournalRow(RowAt(start, k).rec, journal, k, at);
    }
  }

  lemma {:induction false} JournalRowStays(start: Option<Record>, journal: seq<Entry>, k: RowKey, m: nat, at: nat)
    requires m <= at <= |journal| && forall j :: m <= j < at ==> journal[j].event.rowKey != k
    ensures JournalRow(start, journal, k, at) == JournalRow(start, journal, k, m)
    decreases at
  {
    if m < at {
      JournalRowStays(start, journal, k, m, at - 1);
    }
  }

  /** Applying entry `i` again from behind the position. */
  lemma LateKeepsMatches(start: Replica, journal: seq<Entry>, s: Replica, k: RowKey, at: nat, i: nat)
    requires VersionsRise(journal, start) && Settled(s) && (forall j :: j in start.rows ==> !start.rows[j].dirty)
    requires i < at <= |journal| && Matches(start, journal, s, k, at) && Harmless(journal, s, at, i)
    ensures Matches(start, journal, ApplyChange(s, journal[i].event).0, k, at)
  {
    var m: nat :| at <= m <= |journal| && RowAt(s, k).rec == JournalRow(RowAt(start, k).rec, journal, k, m);
    var m' := ReplayedRow(start, journal, s, k, m, i);
    if m' != m {
      JournalRowStays(RowAt(start, k).rec, journal, k, i + 1, at);
    }
  }

  /** A late change leaves its row at a journal state at or after the position exactly if it
      is harmless: only a late upsert of an absent row with a later entry undoes anything. */
  lemma LateIsHarmlessExactly(start: Replica, journal: seq<Entry>, s: Replica, at: nat, i: nat)
    requires VersionsRise(journal, start) && Settled(s) && (forall j :: j in start.rows ==> !start.rows[j].dirty)
    requires i < at <= |journal| && Matches(start, journal, s, journal[i].event.rowKey, at)
    ensures Matches(start, journal, ApplyChange(s, journal[i].event).0, journal[i].event.rowKey, at)
       <==> Harmless(journal, s, at, i)
  {
    var e := journal[i].event;
    var k, s' := e.rowKey, ApplyChange(s, e).0;
    if Harmless(journal, s, at, i) {
      LateKeepsMatches(start, journal, s, k, at, i);
    } else if Matches(start, journal, s', k, at) {
      var j :| i < j < at && journal[j].event.rowKey == k;
      var m: nat :| at <= m <= |journal| && RowAt(s', k).rec == JournalRow(RowAt(start, k).rec, journal, k, m);
      DeliverIsApply(s, e);
      StepIsLocal(s, Deliver(e), k);
      JournalRowIsLatest(start, journal, k, m, j);
      assert false;
    }
  }

  /** Positions and the cursors that name them are in bijection. */
  lemma {:induction false} PositionOfCursor(journal: seq<Entry>, at: nat)
    requires Ascending(journal) && at <= |journal|
    ensures Position(journal, CursorAt(journal, at)) == at
  {
    var p := Position(journal, CursorAt(journal, at));
    if at < p {
      CursorGrows(journal, at, p);
    }
  }

  lemma CursorGrows(journal: seq<Entry>, at: nat, at': nat)
    requires Ascending(journal) && at < at' <= |journal|
    ensures CursorAt(journal, at) < CursorAt(journal, at')
  {
  }

  lemma ApplyKeepsInv(start: Replica, journal: seq<Entry>, scope: string, p: Puller, i: nat, at: nat)
    requires Ascending(journal) && VersionsRise(journal, start)
    requires forall j :: j in start.rows ==> !start.rows[j].dirty
    requires Inv(start, journal, scope, p)
    requires i < |journal| && Harmless(journal, p.store, p.at, i)
    requires at == p.at || (i == p.at && at == p.at + 1)
    ensures Inv(start, journal, scope, Puller(ApplyChange(p.store, journal[i].event).0, at))
  {
    var s' := ApplyChange(p.store, journal[i].event).0;
    ApplyKeepsSettled(p.store, journal[i].event);
    forall k ensures Matches(start, journal, s', k, at) {
      assert Matches(start, journal, p.store, k, p.at);
      if i < p.at {
        LateKeepsMatches(start, journal, p.store, k, p.at, i);
      } else {
        ApplyKeepsMatches(start, journal, p.store, k, p.at, i);
        MatchesEarlier(start, journal, s', k, if i == p.at then p.at + 1 else p.at, at);
      }
    }
  }

  lemma MatchesEarlier(start: Replica, journal: seq<Entry>, s: Replica, k: RowKey, at: nat, at': nat)
    requires Matches(start, journal, s, k, at) && at' <= at
    ensures Matches(start, journal, s, k, at')
  {
    var m: nat :| at <= m <= |journal| && RowAt(s, k).rec == JournalRow(RowAt(start, k).rec, journal, k, m);
  }

  lemma SaveKeepsInv(start: Replica, journal: seq<Entry>, scope: string, p: Puller)
    requires Ascending(journal) && VersionsRise(journal, start)
    requires forall j :: j in start.rows ==> !start.rows[j].dirty
    requires Inv(start, journal, scope, p)
    ensures Inv(start, journal, scope, Moved(journal, scope, p, Save))
    ensures SetCursor(p.store, CursorAt(journal, p.at), scope).1.Success?
    ensures GetCursor(Moved(journal, scope, p, Save).store, scope) == CursorAt(journal, p.at)
  {
    var p' := Moved(journal, scope, p, Save);
    CursorIsSaved(journal, scope, p);
    PositionOfCursor(journal, p.at);
    forall k ensures Matches(start, journal, p'.store, k, p'.at) {
      assert Matches(start, journal, p.store, k, p.at);
      assert RowAt(p'.store, k) == RowAt(p.store, k);
    }
  }

  /** The cursor of the position is not behind the saved one, so the store takes it. */
  lemma CursorIsSaved(journal: seq<Entry>, scope: string, p: Puller)
    requires Ascending(journal) && Valid(p.store) && SavedAt(journal, scope, p.store) <= p.at <= |journal|
    requires GetCursor(p.store, scope) == CursorAt(journal, SavedAt(journal, scope, p.store))
    ensures SetCursor(p.store, CursorAt(journal, p.at), scope).1.Success?
    ensures var s' := SetCursor(p.store, CursorAt(journal, p.at), scope).0;
            && Valid(s') && GetCursor(s', scope) == CursorAt(journal, p.at)
            && s'.rows == p.store.rows && s'.queue == p.store.queue
  {
    var saved := SavedAt(journal, scope, p.store);
    if saved < p.at {
      CursorGrows(journal, saved, p.at);
    }
  }

  lemma CrashKeepsInv(start: Replica, journal: seq<Entry>, scope: string, p: Puller)
    requires Inv(start, journal, scope, p)
    ensures Inv(start, journal, scope, Moved(journal, scope, p, Crash))
  {
    var p' := Moved(journal, scope, p, Crash);
    forall k ensures Matches(start, journal, p'.store, k, p'.at) {
      assert Matches(start, journal, p.store, k, p.at);
      MatchesEarlier(start, journal, p.store, k, p.at, p'.at);
    }
  }

  lemma MoveKeepsInv(start: Replica, journal: seq<Entry>, scope: string, p: Puller, move: Move)
    requires Ascending(journal) && VersionsRise(journal, start)
    requires forall j :: j in start.rows ==> !start.rows[j].dirty
    requires Inv(start, journal, scope, p) && Enabled(journal, p, move)
    ensures Inv(start, journal, scope, Moved(journal, scope, p, move))
  {
    match move
    case ApplyNext => ApplyKeepsInv(start, journal, scope, p, p.at, p.at + 1);
    case Live(i) => ApplyKeepsInv(start, journal, scope, p, i, p.at);
    case Save => SaveKeepsInv(start, journal, scope, p);
    case Crash => CrashKeepsInv(start, journal, scope, p);
  }

  lemma {:induction false} RunKeepsInv(start: Replica, journal: seq<Entry>, scope: string, p: Puller,
                                       moves: seq<Move>, p': Puller)
    requires Ascending(journal) && VersionsRise(journal, start)
    requires forall j :: j in start.rows ==> !start.rows[j].dirty
    requires Inv(start, journal, scope, p) && Runs(journal, scope, p, moves, p')
    ensures Inv(start, journal, scope, p')
    decreases |moves|
  {
    if moves != [] {
      MoveKeepsInv(start, journal, scope, p, moves[0]);
      RunKeepsInv(start, journal, scope, Moved(journal, scope, p, moves[0]), moves[1..], p');
    }
  }

  // ----------------------------------------------------------------- the result

  lemma {:induction false} DeliverNext(s: Replica, journal: seq<Entry>, at: nat)
    requires at < |journal|
    ensures DeliverAll(s, Events(journal[at..]))
         == DeliverAll(ApplyChange(s, journal[at].event).0, Events(journal[at + 1..]))
  {
    assert Events(journal[at..])[0] == journal[at].event;
    assert Events(journal[at..])[1..] == Events(journal[at + 1..]);
  }

  /** Reconciling the journal once, front to back, leaves every row in its last state. */
  lemma {:induction false} OnePass(start: Replica, s: Replica, journal: seq<Entry>, k: RowKey, at: nat)
    requires VersionsRise(journal, start) && (forall j :: j in start.rows ==> !start.rows[j].dirty)
    requires Settled(s) && at <= |journal|
    requires Matches(start, journal, s, k, at)
    ensures Settled(DeliverAll(s, Events(journal[at..])))
    ensures RowAt(DeliverAll(s, Events(journal[at..])), k).rec
         == JournalRow(RowAt(start, k).rec, journal, k, |journal|)
    decreases |journal| - at
  {
    if at < |journal| {
      var s' := ApplyChange(s, journal[at].event).0;
      ApplyKeepsSettled(s, journal[at].event);
      ApplyKeepsMatches(start, journal, s, k, at, at);
      DeliverNext(s, journal, at);
      OnePass(start, s', journal, k, at + 1);
    }
  }

  lemma {:induction false} ReachableInv(start: Replica, journal: seq<Entry>, scope: string, moves: seq<Move>, p: Puller)
    requires Settled(start) && scope !in start.cursors
    requires Ascending(journal) && VersionsRise(journal, start)
    requires Runs(journal, scope, Puller(start, 0), moves, p)
    ensures Inv(start, journal, scope, p)
  {
    PositionOfCursor(journal, 0);
    forall k ensures Matches(start, journal, start, k, 0) {
      assert RowAt(start, k).rec == JournalRow(RowAt(start, k).rec, journal, k, 0);
    }
    RunKeepsInv(start, journal, scope, Puller(start, 0), moves, p);
  }

  /** After any run of page applications, cursor advances, live deliveries, crashes and
      restarts, every row is as the journal had it at or after the replay position; and once
      the position reaches the end, the rows are those of one uninterrupted pass over the
      journal, deletions included. */
  lemma {:induction false} CatchUpIsCrashSafe(start: Replica, journal: seq<Entry>, scope: string, moves: seq<Move>,
                                              p: Puller)
    requires Settled(start) && scope !in start.cursors
    requires Ascending(journal) && VersionsRise(journal, start)
    requires Runs(journal, scope, Puller(start, 0), moves, p)
    ensures p.at <= |journal| && SavedAt(journal, scope, p.store) <= p.at
    ensures forall k :: Matches(start, journal, p.store, k, p.at)
    ensures p.at == |journal| ==> p.store.rows == DeliverAll(start, Events(journal)).rows
  {
    ReachableInv(start, journal, scope, moves, p);
    if p.at == |journal| {
      ResumedIsOnePass(start, journal, p.store, |journal|);
    }
  }

  /** Reconciling the rest of the journal from any replay position comes to the same rows as
      reconciling all of it from the start. */
  lemma {:induction false} ResumedIsOnePass(start: Replica, journal: seq<Entry>, s: Replica, at: nat)
    requires Settled(start) && Settled(s) && VersionsRise(journal, start) && at <= |journal|
    requires forall k :: Matches(start, journal, s, k, at)
    ensures DeliverAll(s, Events(journal[at..])).rows == DeliverAll(start, Events(journal)).rows
  {
    assert journal[0..] == journal;
    forall k: RowKey
      ensures RowAt(DeliverAll(s, Events(journal[at..])), k).rec == RowAt(DeliverAll(start, Events(journal)), k).rec
    {
      assert Matches(start, journal, s, k, at);
      OnePass(start, s, journal, k, at);
      assert RowAt(start, k).rec == JournalRow(RowAt(start, k).rec, journal, k, 0);
      OnePass(start, start, journal, k, 0);
    }
    SameRows(DeliverAll(s, Events(journal[at..])), DeliverAll(start, Events(journal)));
  }

  // ------------------------------------------------------- replay with writes queued

  /** The changes of row `k`, in order. */
  function RowEvents(events: seq<ChangeEvent>, k: RowKey): seq<ChangeEvent> {
    if events == [] then []
    else (if events[0].rowKey == k then [events[0]] else []) + RowEvents(events[1..], k)
  }

  lemma {:induction false} RowEventsJoin(events: seq<ChangeEvent>, more: seq<ChangeEvent>, k: RowKey)
    ensures RowEvents(events + more, k) == RowEvents(events, k) + RowEvents(more, k)
    decreases |events|
  {
    if events == [] {
      assert events + more == more;
    } else {
      assert (events + more)[1..] == events[1..] + more;
      RowEventsJoin(events[1..], more, k);
    }
  }

  /** A row sees its own changes only, whatever is queued. */
  lemma {:induction false} DeliveryIsLocal(s: Replica, s': Replica, events: seq<ChangeEvent>, k: RowKey)
    requires Valid(s) && Valid(s') && RowAt(s, k) == RowAt(s', k)
    ensures RowAt(DeliverAll(s, events), k) == RowAt(DeliverAll(s', RowEvents(events, k)), k)
    decreases |events|
  {
    if events != [] {
      var e := events[0];
      DeliverIsApply(s, e);
      StepIsLocal(s, Deliver(e), k);
      if e.rowKey == k {
        DeliverIsApply(s', e);
        StepIsLocal(s', Deliver(e), k);
        assert RowEvents(events, k)[1..] == RowEvents(events[1..], k);
        DeliveryIsLocal(ApplyChange(s, e).0, ApplyChange(s', e).0, events[1..], k);
      } else {
        assert RowEvents(events, k) == RowEvents(events[1..], k);
        DeliveryIsLocal(ApplyChange(s, e).0, s', events[1..], k);
      }
    }
  }

  lemma {:induction false} JournalRowIsServerRow(start: Option<Record>, journal: seq<Entry>, k: RowKey)
    ensures JournalRow(start, journal, k, |journal|) == Convergence.ServerRow(RowEvents(Events(journal), k), start)
    decreases |journal|
  {
    if journal != [] {
      var last := |journal| - 1;
      JournalRowIsServerRow(start, journal[..last], k);
      assert Events(journal) == Events(journal[..last]) + [journal[last].event];
      RowEventsJoin(Events(journal[..last]), [journal[last].event], k);
      assert [journal[last].event][1..] == [];
      JournalRowOfPrefix(start, journal, k, last, last);
    }
  }

  lemma {:induction false} JournalRowOfPrefix(start: Option<Record>, journal: seq<Entry>, k: RowKey, last: nat, m: nat)
    requires m <= last <= |journal|
    ensures JournalRow(start, journal[..last], k, m) == JournalRow(start, journal, k, m)
  {
    if m != 0 {
      JournalRowOfPrefix(start, journal, k, last, m - 1);
    }
  }

  /** A crash replay while writes are queued: after any run in which the row's changes came in
      whatever order, interleaved with keyed writes, acknowledgements and failed sends,
      replaying the journal from a position that the row has reached ends with the row of one
      uninterrupted pass, once nothing is queued for it. */
  lemma {:induction false} ReplayWithWrites(journal: seq<Entry>, k: RowKey, s: Replica, trace: seq<Action>, at: nat)
    requires Valid(s) && RowAt(s, k).queue == map[] && at <= |journal|
    requires Convergence.History(RowEvents(Events(journal), k), k, RowAt(s, k).rec)
    requires Convergence.Admissible(RowEvents(Events(journal), k), k, s, Convergence.NOTHING, trace)
    requires |RowEvents(Events(journal[..at]), k)|
          <= Convergence.SeenBy(RowEvents(Events(journal), k), k, s, Convergence.NOTHING, trace).at
    ensures var s' := DeliverAll(Run(s, trace), Events(journal[at..]));
            RowAt(s', k).queue == map[] ==>
              RowAt(s', k).rec == JournalRow(RowAt(s, k).rec, journal, k, |journal|)
  {
    var history, i := RowEvents(Events(journal), k), |RowEvents(Events(journal[..at]), k)|;
    assert Events(journal) == Events(journal[..at]) + Events(journal[at..]);
    RowEventsJoin(Events(journal[..at]), Events(journal[at..]), k);
    assert history[i..] == RowEvents(Events(journal[at..]), k);
    RunIsValid(s, trace);
    DeliveryIsLocal(Run(s, trace), Run(s, trace), Events(journal[at..]), k);
    Convergence.ReplayConverges(history, k, s, trace, i);
    JournalRowIsServerRow(RowAt(s, k).rec, journal, k);
  }
}
