/** The hybrid logical clock (src/hlc.rs): two fields that together count one 64-bit number. */
module Hlc {
  const HLC_MAX_WALL_MS := 0xFFFF_FFFF_FFFF
  const HLC_MAX_COUNTER := 0xFFFF

  /** The stamp that the saturated clock repeats, as a number: 2^64 - 1. */
  const TOP := 0xFFFF_FFFF_FFFF_FFFF

  type I64 = x: int | -0x8000_0000_0000_0000 <= x <= 0x7FFF_FFFF_FFFF_FFFF
  type U32 = x: int | 0 <= x <= 0xFFFF_FFFF

  /** A stamp; stamps are ordered by wall time, then by counter. */
  datatype Stamp = Stamp(wallMs: I64, counter: U32)

  predicate InRange(s: Stamp) {
    0 <= s.wallMs <= HLC_MAX_WALL_MS && s.counter <= HLC_MAX_COUNTER
  }

  predicate Before(a: Stamp, b: Stamp) {
    a.wallMs < b.wallMs || (a.wallMs == b.wallMs && a.counter < b.counter)
  }

  function ClampWall(ms: I64): I64 {
    if ms < 0 then 0 else if ms > HLC_MAX_WALL_MS then HLC_MAX_WALL_MS else ms
  }

  function Distance(a: int, b: int): int {
    if a < b then b - a else a - b
  }

  // ------------------------------------------------------------- one 64-bit count

  /** The number whose upper 48 bits are the wall time and lower 16 the counter. */
  function Count(s: Stamp): int {
    s.wallMs * 65536 + s.counter
  }

  function Least(a: int, b: int): int {
    if a < b then a else b
  }

  function Largest(a: int, b: int): int {
    if a < b then b else a
  }

  /** What issuing a stamp makes of count `v` when the inputs call for at least `target`. */
  function Issue(v: int, target: int): int {
    Least(TOP, Largest(v + 1, target))
  }

  /** The least stamp of the current wall time. */
  function TickTarget(nowMs: I64): int {
    ClampWall(nowMs) * 65536
  }

  /** One past the remote time, or the least stamp of the current wall time if later. */
  function ObserveTarget(remoteMs: I64, nowMs: I64): int {
    Largest(ClampWall(remoteMs) * 65536 + 1, ClampWall(nowMs) * 65536)
  }

  /** Clamping gives the nearest wall time in range. */
  lemma ClampIsNearest(ms: I64, t: int)
    requires 0 <= t <= 0xFFFF_FFFF_FFFF
    ensures 0 <= ClampWall(ms) <= 0xFFFF_FFFF_FFFF && Distance(ms, ClampWall(ms)) <= Distance(ms, t)
  {
  }

  /** The stamp issued is the least that comes after the last one and meets the target, as long
      as there is one. */
  lemma IssueIsLeast(v: int, target: int, x: int)
    ensures Issue(v, target) <= 0xFFFF_FFFF_FFFF_FFFF
    ensures Issue(v, target) < 0xFFFF_FFFF_FFFF_FFFF ==> v < Issue(v, target) && target <= Issue(v, target)
    ensures v < x && target <= x ==> Issue(v, target) <= x
  {
  }

  /** The target of a tick is the first stamp of the current wall time; that of an observation
      is the least one after the remote time that is not before the current time. */
  lemma TargetIsLeast(remoteMs: I64, nowMs: I64, x: int)
    ensures var remote, now := WallCount(remoteMs), WallCount(nowMs);
            && TickTarget(nowMs) == now
            && remote < ObserveTarget(remoteMs, nowMs) && now <= ObserveTarget(remoteMs, nowMs)
            && (remote < x && now <= x ==> ObserveTarget(remoteMs, nowMs) <= x)
  {
    TargetsAreCounts(remoteMs, nowMs);
  }

  lemma TargetsAreCounts(remoteMs: I64, nowMs: I64)
    ensures TickTarget(nowMs) == WallCount(nowMs)
    ensures ObserveTarget(remoteMs, nowMs) == Largest(WallCount(remoteMs) + 1, WallCount(nowMs))
  {
  }

  /** The count of the first stamp of a wall time. */
  function WallCount(ms: I64): int {
    Count(Stamp(ClampWall(ms), 0))
  }

  /** Counting is an isomorphism of stamp order: distinct in-range stamps count apart, and
      they cover exactly the 64-bit numbers. */
  lemma CountIsOrder(a: Stamp, b: Stamp)
    requires InRange(a) && InRange(b)
    ensures Before(a, b) <==> Count(a) < Count(b)
    ensures a == b <==> Count(a) == Count(b)
    ensures 0 <= Count(a) <= TOP
    ensures InRange(StampOf(Count(a))) && StampOf(Count(a)) == a
  {
  }

  function StampOf(v: int): Stamp
    requires 0 <= v <= TOP
  {
    Stamp(v / 65536, v % 65536)
  }

  // -------------------------------------------------------------------- the clock

  class Clock {
    var wallMs: I64
    var counter: U32

    function State(): Stamp
      reads this
    {
      Stamp(wallMs, counter)
    }

    predicate Valid()
      reads this
    {
      InRange(State())
    }

    constructor ()
      ensures Valid() && Count(State()) == 0
    {
      wallMs, counter := 0, 0;
    }

    /** Restore a persisted clock: an in-range state comes back as it was, anything else is
        moved to the nearest in-range value of each field. */
    constructor FromState(wallMs: I64, counter: U32)
      ensures Valid()
      ensures InRange(Stamp(wallMs, counter)) ==> State() == Stamp(wallMs, counter)
      ensures State() == Restored(Stamp(wallMs, counter))
    {
      this.wallMs := ClampWall(wallMs);
      this.counter := if counter < HLC_MAX_COUNTER then counter else HLC_MAX_COUNTER;
    }

    /** Move to the given wall time and counter; a counter one past its maximum carries
        into the wall time, and the last stamp of all is kept. */
    method Advance(wallMs: I64, counter: U32) returns (stamp: Stamp)
      requires 0 <= wallMs <= HLC_MAX_WALL_MS && counter <= HLC_MAX_COUNTER + 1
      modifies this
      ensures Valid() && stamp == State()
      ensures Count(stamp) == Least(TOP, wallMs * 65536 + counter)
    {
      if counter > HLC_MAX_COUNTER {
        this.wallMs := ClampWall(wallMs + 1);
        this.counter := if this.wallMs > wallMs then 0 else HLC_MAX_COUNTER;
      } else {
        this.wallMs := wallMs;
        this.counter := counter;
      }
      return Stamp(this.wallMs, this.counter);
    }

    method Tick(nowMs: I64) returns (stamp: Stamp)
      requires Valid()
      modifies this
      ensures Valid() && stamp == State()
      ensures Count(stamp) == Issue(old(Count(State())), TickTarget(nowMs))
      ensures Before(old(State()), stamp) <==> old(Count(State())) != TOP
    {
      var now := ClampWall(nowMs);
      if now > wallMs {
        stamp := Advance(now, 0);
      } else {
        stamp := Advance(wallMs, counter + 1);
      }
    }

    method Observe(remoteMs: I64, nowMs: I64) returns (stamp: Stamp)
      requires Valid()
      modifies this
      ensures Valid() && stamp == State()
      ensures Count(stamp) == Issue(old(Count(State())), ObserveTarget(remoteMs, nowMs))
      ensures Before(old(State()), stamp) <==> old(Count(State())) != TOP
      ensures Before(Stamp(ClampWall(remoteMs), 0), stamp)
    {
      var remote := ClampWall(remoteMs);
      var now := ClampWall(nowMs);
      var wall: I64 := Largest(Largest(wallMs, remote), now);
      if wall == wallMs {
        stamp := Advance(wall, counter + 1);
      } else if wall == remote {
        stamp := Advance(wall, 1);
      } else {
        stamp := Advance(wall, 0);
      }
    }
  }

  function Restored(s: Stamp): Stamp {
    Stamp(ClampWall(s.wallMs), if s.counter < HLC_MAX_COUNTER then s.counter else HLC_MAX_COUNTER)
  }

  // ------------------------------------------------------------------------- runs

  /** What happens to a clock: a local event, a remote observation, or a restart that
      persists the state and restores it. */
  datatype Event = Ticked(nowMs: I64) | Observed(remoteMs: I64, nowMs: I64) | Restarted

  /** The count that an event calls for at least. */
  function Target(e: Event): int
    requires !e.Restarted?
  {
    if e.Ticked? then TickTarget(e.nowMs) else ObserveTarget(e.remoteMs, e.nowMs)
  }

  /** The state after an event, by the contracts of the clock's methods. */
  function After(s: Stamp, e: Event): (s': Stamp)
    requires InRange(s)
    ensures InRange(s')
    ensures if e.Restarted? then s' == s else Count(s') == Issue(Count(s), Target(e))
  {
    if e.Restarted? then Restored(s) else StampOf(Issue(Count(s), Target(e)))
  }

  /** The clock driven through a run, collecting what it issues. */
  method Drive(start: Stamp, events: seq<Event>) returns (stamps: seq<Stamp>)
    ensures stamps == Stamps(Restored(start), events)
  {
    var clock := new Clock.FromState(start.wallMs, start.counter);
    stamps := [];
    for i := 0 to |events|
      invariant clock.Valid() && fresh(clock)
      invariant stamps + Stamps(clock.State(), events[i..]) == Stamps(Restored(start), events)
    {
      StampsStep(stamps, clock.State(), events, i);
      if events[i].Restarted? {
        clock := new Clock.FromState(clock.wallMs, clock.counter);
      } else {
        var stamp := Handle(clock, events[i]);
        stamps := stamps + [stamp];
      }
    }
  }

  method Handle(clock: Clock, e: Event) returns (stamp: Stamp)
    requires clock.Valid() && !e.Restarted?
    modifies clock
    ensures clock.Valid() && clock.State() == stamp == After(old(clock.State()), e)
  {
    if e.Ticked? {
      stamp := clock.Tick(e.nowMs);
    } else {
      stamp := clock.Observe(e.remoteMs, e.nowMs);
    }
    CountIsOrder(stamp, After(old(clock.State()), e));
  }

  lemma {:induction false} StampsStep(done: seq<Stamp>, s: Stamp, events: seq<Event>, i: nat)
    requires InRange(s) && i < |events|
    ensures var s' := After(s, events[i]);
            done + Stamps(s, events[i..])
            == (if events[i].Restarted? then done else done + [s']) + Stamps(s', events[i + 1..])
  {
    assert events[i..][1..] == events[i + 1..];
  }

  /** The stamps that a run issues. */
  function Stamps(s: Stamp, events: seq<Event>): seq<Stamp>
    requires InRange(s)
    decreases |events|
  {
    if events == [] then []
    else
      var s' := After(s, events[0]);
      (if events[0].Restarted? then [] else [s']) + Stamps(s', events[1..])
  }

  /** What the `i`-th stamp-issuing events call for, in order. */
  function Targets(events: seq<Event>): seq<int>
    decreases |events|
  {
    if events == [] then []
    else
      (if events[0].Restarted? then [] else [Target(events[0])]) + Targets(events[1..])
  }

  /** The largest count that `n` stamps can reach: the start, or some target met on the way,
      plus one for each stamp issued since. */
  function Reach(v: int, targets: seq<int>): int
    decreases |targets|
  {
    if targets == [] then v
    else
      var last := |targets| - 1;
      Largest(Reach(v, targets[..last]) + 1, targets[last])
  }

  lemma {:induction false} ReachIsLargest(v: int, targets: seq<int>)
    ensures var r := Reach(v, targets);
            && v + |targets| <= r
            && (forall i :: 0 <= i < |targets| ==> targets[i] + |targets| - 1 - i <= r)
            && (r == v + |targets| || exists i :: 0 <= i < |targets| && r == targets[i] + |targets| - 1 - i)
    decreases |targets|
  {
    if targets != [] {
      var last := |targets| - 1;
      var before := targets[..last];
      ReachIsLargest(v, before);
      forall i | 0 <= i < |targets|
        ensures targets[i] + |targets| - 1 - i <= Reach(v, targets)
      {
        if i < last {
          assert before[i] == targets[i];
        }
      }
      if Reach(v, targets) == targets[last] {
      } else if Reach(v, before) != v + |before| {
        var i :| 0 <= i < |before| && Reach(v, before) == before[i] + |before| - 1 - i;
        assert Reach(v, targets) == targets[i] + |targets| - 1 - i;
      }
    }
  }

  /** Issuing the first stamp first. */
  lemma {:induction false} ReachFromFront(v: int, targets: seq<int>)
    requires targets != []
    ensures Reach(v, targets) == Reach(Largest(v + 1, targets[0]), targets[1..])
    decreases |targets|
  {
    var last := |targets| - 1;
    if last == 0 {
      assert targets[..0] == [] == targets[1..];
    } else {
      ReachFromFront(v, targets[..last]);
      assert targets[..last][1..] == targets[1..][..last - 1];
    }
  }

  /** Saturating on the way makes no difference to the saturated end. */
  lemma {:induction false} ReachSaturates(v: int, targets: seq<int>)
    ensures Least(TOP, Reach(Least(TOP, v), targets)) == Least(TOP, Reach(v, targets))
    decreases |targets|
  {
    if targets != [] {
      ReachSaturates(v, targets[..|targets| - 1]);
    }
  }

  /** The `i`-th stamp in closed form: what the first `i + 1` events could reach, saturated. */
  lemma {:induction false} StampIsReach(s: Stamp, events: seq<Event>, i: nat)
    requires InRange(s)
    ensures |Stamps(s, events)| == |Targets(events)|
    ensures i < |Stamps(s, events)| ==>
              && InRange(Stamps(s, events)[i])
              && Count(Stamps(s, events)[i]) == Least(TOP, Reach(Count(s), Targets(events)[..i + 1]))
    decreases |events|
  {
    if events != [] {
      var e, rest := events[0], events[1..];
      var s' := After(s, e);
      FirstEvent(s, events);
      StampIsReach(s', rest, if e.Restarted? || i == 0 then i else i - 1);
      if !e.Restarted? && i < |Stamps(s, events)| {
        ReachAfterFirst(Count(s), Target(e), Targets(rest), i);
      }
    }
  }

  /** Reaching on from the first stamp is reaching from the start. */
  lemma {:induction false} ReachAfterFirst(v: int, target: int, rest: seq<int>, i: nat)
    requires i <= |rest|
    ensures Least(TOP, Reach(v, ([target] + rest)[..i + 1])) == Least(TOP, Reach(Issue(v, target), rest[..i]))
    ensures i == 0 ==> Least(TOP, Reach(v, ([target] + rest)[..i + 1])) == Issue(v, target)
  {
    assert ([target] + rest)[..i + 1] == [target] + rest[..i];
    IssueFirst(v, target, rest[..i]);
  }

  lemma {:induction false} FirstEvent(s: Stamp, events: seq<Event>)
    requires InRange(s) && events != []
    ensures var e, s', rest := events[0], After(s, events[0]), events[1..];
            InRange(s') &&
            if e.Restarted? then s' == s && Stamps(s, events) == Stamps(s', rest) && Targets(events) == Targets(rest)
            else
              && Count(s') == Issue(Count(s), Target(e))
              && Stamps(s, events) == [s'] + Stamps(s', rest) && Targets(events) == [Target(e)] + Targets(rest)
  {
  }

  lemma {:induction false} IssueFirst(v: int, target: int, targets: seq<int>)
    ensures Least(TOP, Reach(Issue(v, target), targets)) == Least(TOP, Reach(v, [target] + targets))
  {
    ReachFromFront(v, [target] + targets);
    assert ([target] + targets)[1..] == targets;
    ReachSaturates(Largest(v + 1, target), targets);
  }

  lemma {:induction false} ReachGrows(v: int, targets: seq<int>, i: nat, j: nat)
    requires i <= j <= |targets|
    ensures Reach(v, targets[..i]) + j - i <= Reach(v, targets[..j])
    decreases j
  {
    if i < j {
      ReachGrows(v, targets, i, j - 1);
      assert targets[..j][..j - 1] == targets[..j - 1];
    }
  }

  /** Over any run, restarts included, each stamp is after the start and after every stamp
      before it, except once the last stamp of all was issued: that one is repeated. */
  lemma {:induction false} StampsRise(s: Stamp, events: seq<Event>, i: nat, j: nat)
    requires InRange(s) && i <= j < |Stamps(s, events)|
    ensures var stamps := Stamps(s, events);
            && (Before(s, stamps[j]) <==> Count(s) != TOP)
            && (i < j ==> (Before(stamps[i], stamps[j]) <==> Count(stamps[i]) != TOP))
            && (Count(stamps[i]) == TOP ==> stamps[j] == stamps[i])
  {
    var stamps, targets := Stamps(s, events), Targets(events);
    StampIsReach(s, events, i);
    StampIsReach(s, events, j);
    ReachGrows(Count(s), targets, 0, j + 1);
    ReachGrows(Count(s), targets, i + 1, j + 1);
    CountIsOrder(stamps[i], stamps[j]);
    CountIsOrder(s, stamps[j]);
  }

  /** From an observation on, every stamp is after the observed time. */
  lemma {:induction false} ObservationsArePassed(s: Stamp, before: seq<Event>, remoteMs: I64, nowMs: I64,
                                                 later: seq<Event>, i: nat)
    requires InRange(s)
    requires |Targets(before)| <= i < |Stamps(s, before + [Observed(remoteMs, nowMs)] + later)|
    ensures Before(Stamp(ClampWall(remoteMs), 0), Stamps(s, before + [Observed(remoteMs, nowMs)] + later)[i])
  {
    var e := Observed(remoteMs, nowMs);
    var events := before + [e] + later;
    var at := |Targets(before)|;
    TargetsAppend(before + [e], later);
    TargetsAppend(before, [e]);
    assert [e][1..] == [];
    assert Targets([e]) == [Target(e)];
    StampIsReach(s, events, i);
    var seen := Targets(events)[..i + 1];
    assert seen[at] == Target(e);
    ReachIsLargest(Count(s), seen);
    CountIsOrder(Stamp(ClampWall(remoteMs), 0), Stamps(s, events)[i]);
  }

  lemma {:induction false} TargetsAppend(events: seq<Event>, more: seq<Event>)
    ensures Targets(events + more) == Targets(events) + Targets(more)
    decreases |events|
  {
    if events == [] {
      assert events + more == more;
    } else {
      assert (events + more)[1..] == events[1..] + more;
      TargetsAppend(events[1..], more);
    }
  }

  /** The clock stays near real time: after `i + 1` stamps it is at most `i + 1` counts past
      the start or past the largest time it was shown, whichever is later. */
  lemma {:induction false} DriftIsBounded(s: Stamp, events: seq<Event>, largest: I64, i: nat)
    requires InRange(s) && i < |Stamps(s, events)|
    requires forall e :: e in events && !e.Restarted? ==> ClampWall(e.nowMs) <= largest
    requires forall e :: e in events && e.Observed? ==> ClampWall(e.remoteMs) <= largest
    ensures Count(Stamps(s, events)[i]) <= Largest(Count(s), largest * 65536) + i + 1
  {
    StampIsReach(s, events, i);
    TargetsAreBounded(events, largest);
    var seen := Targets(events)[..i + 1];
    assert forall j :: 0 <= j < |seen| ==> seen[j] == Targets(events)[j];
    ReachIsLargest(Count(s), seen);
  }

  lemma {:induction false} TargetsAreBounded(events: seq<Event>, largest: I64)
    requires forall e :: e in events && !e.Restarted? ==> ClampWall(e.nowMs) <= largest
    requires forall e :: e in events && e.Observed? ==> ClampWall(e.remoteMs) <= largest
    ensures forall j :: 0 <= j < |Targets(events)| ==> Targets(events)[j] <= largest * 65536 + 1
    decreases |events|
  {
    if events != [] {
      TargetsAreBounded(events[1..], largest);
    }
  }
}
