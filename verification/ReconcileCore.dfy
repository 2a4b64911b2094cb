/** The zero-IO decisions of the sync engine (src/lib.rs). */
module ReconcileCore {
  import opened Wrappers
  import opened Merge

  const MAX_SAFE := 9007199254740991

  /** A row version: every decoder and acknowledgement check admits safe integers only. */
  type Version = v: int | -MAX_SAFE <= v <= MAX_SAFE witness 0

  datatype RowKey = RowKey(table: string, id: string)

  datatype ChangeOp = Upsert | Delete

  datatype ChangeEvent = ChangeEvent(
    rowKey: RowKey, op: ChangeOp, version: Version, row: JsValue, writeKey: Option<string>)

  datatype LocalRow = LocalRow(version: Version, dirty: bool)

  datatype IgnoreReason = Stale | AlreadyApplied

  datatype Decision = Apply | Ignore(reason: IgnoreReason) | Conflict

  function Reconcile(local: Option<LocalRow>, incoming: ChangeEvent): Decision {
    match local
    case None =>
      if incoming.op.Upsert? then Apply else Ignore(AlreadyApplied)
    case Some(l) =>
      if incoming.version < l.version then Ignore(Stale)
      else if incoming.version == l.version then Ignore(AlreadyApplied)
      else if l.dirty then Conflict
      else Apply
  }

  datatype Strategy = LocalQueue | Optimistic | Pessimistic

  /** A durable resend intent. `superseded` is the highest commit version of a later write
      to the same row that was settled while this one waited. */
  datatype QueuedWrite = QueuedWrite(
    rowKey: RowKey, op: ChangeOp, payload: JsValue, baseVersion: Version,
    key: Option<string>, strategy: Strategy, attempts: nat, superseded: Option<Version>)

  /** A keyed write is recognised by its token alone, a legacy one by `base_version + 1`. */
  predicate IsEchoOf(write: QueuedWrite, incoming: ChangeEvent) {
    && incoming.rowKey == write.rowKey
    && incoming.op == write.op
    && (if write.key.Some? then incoming.writeKey == write.key
        else incoming.version == write.baseVersion + 1)
  }

  datatype AckOutcome = Adopt(version: Version) | Superseded | Missing

  /** `on_ack` of the Rust core. */
  function OnAck(local: LocalRow, committed: Version): AckOutcome {
    if local.version <= committed then Adopt(committed) else Superseded
  }

  function Max(a: Version, b: Version): Version {
    if a < b then b else a
  }

  /** `Math.max(superseded_version ?? MIN_SAFE_INTEGER, version)`. */
  function Raise(superseded: Option<Version>, version: Version): Option<Version> {
    Some(if superseded.Some? then Max(superseded.value, version) else Max(-MAX_SAFE, version))
  }

  /** The least element of a non-empty set: the first match in queue order. */
  function Least(s: set<nat>): (m: nat)
    requires s != {}
    ensures m in s && forall x | x in s :: m <= x
  {
    var y :| y in s;
    LeastExists(s, y);
    var m :| m in s && forall x | x in s :: m <= x;
    m
  }

  lemma {:induction false} LeastExists(s: set<nat>, y: nat)
    requires y in s
    ensures exists m :: m in s && forall x | x in s :: m <= x
    decreases y
  {
    if x: nat :| x in s && x < y {
      LeastExists(s, x);
    }
  }

  /** The greatest element of a non-empty set. */
  function Greatest(s: set<nat>): (m: nat)
    requires s != {}
    ensures m in s && forall x | x in s :: x <= m
  {
    GreatestExists(s);
    var m :| m in s && forall x | x in s :: x <= m;
    m
  }

  lemma {:induction false} GreatestExists(s: set<nat>)
    requires s != {}
    ensures exists m :: m in s && forall x | x in s :: x <= m
    decreases s
  {
    var y :| y in s;
    if s - {y} == {} {
      assert s == {y};
    } else {
      GreatestExists(s - {y});
      var m :| m in s - {y} && forall x | x in s - {y} :: x <= m;
      var best := if m <= y then y else m;
      forall x | x in s ensures x <= best {
        assert x == y || x in s - {y};
      }
      assert best in s;
    }
  }
}
