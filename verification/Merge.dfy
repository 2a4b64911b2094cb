/** The JSONB-aware merge that folds a partial write into the row already held
    (langs/typescript/src/merge.mjs). */
module Merge {
  import opened Wrappers

  /** A JavaScript value as the merge sees it. `Opaque` stands for a class instance
      (Date, Map, ...): an object, but not a plain one. */
  datatype JsValue =
    | Undefined
    | Null
    | Bool(b: bool)
    | Number(n: real)
    | Text(s: string)
    | Array(items: seq<JsValue>)
    | Opaque(tag: nat)
    | Object(fields: map<string, JsValue>)

  const MAX_DEPTH := 64

  /** Keys never walked into the target, whatever they hold. */
  predicate Polluting(key: string) {
    key == "__proto__" || key == "constructor" || key == "prototype"
  }

  /** A key of the patch that takes effect. */
  predicate Takes(patch: map<string, JsValue>, key: string) {
    key in patch && !Polluting(key) && !patch[key].Undefined?
  }

  function MergeInto(base: JsValue, patch: JsValue, depth: nat): (out: JsValue)
    decreases patch, 0
  {
    if !base.Object? || !patch.Object? || depth >= MAX_DEPTH then
      if patch.Undefined? then base else patch
    else
      Object(map key | key in base.fields.Keys + patch.fields.Keys
                       && (key in base.fields || Takes(patch.fields, key)) ::
               if !Takes(patch.fields, key) then base.fields[key]
               else MergeKey(base.fields, patch.fields[key], key, depth))
  }

  /** The value the merge stores under one key that the patch takes. */
  function MergeKey(base: map<string, JsValue>, next: JsValue, key: string, depth: nat): (out: JsValue)
    decreases next, 1
  {
    if next.Object? && key in base && base[key].Object? then MergeInto(base[key], next, depth + 1) else next
  }

  function DeepMerge(base: JsValue, patch: JsValue): JsValue {
    MergeInto(base, patch, 0)
  }

  /** `mergeInto` as it is written: a fresh object, filled key by key. The key order is
      irrelevant, because every key is visited once and written from the base's own value. */
  method MergeLoop(base: JsValue, patch: JsValue, depth: nat) returns (out: JsValue)
    ensures out == MergeInto(base, patch, depth)
    decreases patch, 0
  {
    if !base.Object? || !patch.Object? || depth >= MAX_DEPTH {
      return if patch.Undefined? then base else patch;
    }
    var fields := base.fields;
    var keys := patch.fields.Keys;
    while keys != {}
      invariant keys <= patch.fields.Keys
      invariant forall key :: key in fields <==>
                  key in base.fields || (key in patch.fields.Keys - keys && Takes(patch.fields, key))
      invariant forall key :: key in fields ==>
                  fields[key] == if key in patch.fields.Keys - keys && Takes(patch.fields, key)
                                 then MergeKey(base.fields, patch.fields[key], key, depth)
                                 else base.fields[key]
      decreases keys
    {
      var key :| key in keys;
      keys := keys - {key};
      fields := MergeField(fields, key, patch.fields[key], depth);
    }
    out := Object(fields);
    assert fields == MergeInto(base, patch, depth).fields;
  }

  /** One turn of that loop. */
  method MergeField(fields: map<string, JsValue>, key: string, next: JsValue, depth: nat)
    returns (fields': map<string, JsValue>)
    ensures fields' == if Polluting(key) || next.Undefined? then fields
                       else fields[key := MergeKey(fields, next, key, depth)]
    decreases next, 1
  {
    if Polluting(key) || next.Undefined? {
      return fields;
    }
    if next.Object? && key in fields && fields[key].Object? {
      var merged := MergeLoop(fields[key], next, depth + 1);
      return fields[key := merged];
    }
    return fields[key := next];
  }

  // ---------------------------------------------------------------- idempotence

  /** A value merged into itself is itself, polluting and undefined keys included. */
  lemma {:induction false} MergeSelf(v: JsValue, depth: nat)
    ensures MergeInto(v, v, depth) == v
    decreases v
  {
    if v.Object? && depth < MAX_DEPTH {
      forall key | key in v.fields ensures MergeInto(v.fields[key], v.fields[key], depth + 1) == v.fields[key] {
        MergeSelf(v.fields[key], depth + 1);
      }
      assert MergeInto(v, v, depth).fields == v.fields;
    }
  }

  lemma {:induction false} MergeTwice(base: JsValue, patch: JsValue, depth: nat)
    ensures MergeInto(MergeInto(base, patch, depth), patch, depth) == MergeInto(base, patch, depth)
    decreases patch
  {
    var once := MergeInto(base, patch, depth);
    if !base.Object? || !patch.Object? || depth >= MAX_DEPTH {
      MergeSelf(patch, depth);
    } else {
      forall key | key in patch.fields && Takes(patch.fields, key)
        ensures MergeKey(once.fields, patch.fields[key], key, depth) == once.fields[key]
      {
        var next := patch.fields[key];
        assert once.fields[key] == MergeKey(base.fields, next, key, depth);
        if next.Object? {
          if key in base.fields && base.fields[key].Object? {
            MergeTwice(base.fields[key], next, depth + 1);
          } else {
            MergeSelf(next, depth + 1);
          }
        }
      }
      assert MergeInto(once, patch, depth).fields == once.fields;
    }
  }

  /** Applying the same patch again changes nothing, for every base and every patch. */
  lemma DeepMergeIdempotent(base: JsValue, patch: JsValue)
    ensures DeepMerge(DeepMerge(base, patch), patch) == DeepMerge(base, patch)
  {
    MergeTwice(base, patch, 0);
  }

  // -------------------------------------------------------------- what survives

  /** The value found by following `path` through plain objects. */
  function Read(v: JsValue, path: seq<string>): Option<JsValue>
    decreases |path|
  {
    if path == [] then Some(v)
    else if v.Object? && path[0] in v.fields then Read(v.fields[path[0]], path[1..])
    else None
  }

  /** The keys that no patch may touch, and how deep it may reach. */
  const HAZARDS := {"__proto__", "constructor", "prototype"}
  const REACH := 64

  /** `path` leaves the patch at an absent, undefined or hazardous key within its reach. */
  predicate LeavesPatch(patch: JsValue, path: seq<string>, depth: nat)
    decreases |path|
  {
    || patch.Undefined?
    || (patch.Object? && path != [] && depth < REACH &&
        (path[0] !in patch.fields || path[0] in HAZARDS || LeavesPatch(patch.fields[path[0]], path[1..], depth + 1)))
  }

  /** `path` reaches a value of the patch that replaces (neither undefined nor an object),
      over keys that are not hazardous. */
  predicate WrittenBy(patch: JsValue, path: seq<string>)
    decreases |path|
  {
    if path == [] then !patch.Undefined? && !patch.Object?
    else patch.Object? && path[0] in patch.fields && path[0] !in HAZARDS && WrittenBy(patch.fields[path[0]], path[1..])
  }

  lemma {:induction false} SiblingsSurvive(base: JsValue, patch: JsValue, path: seq<string>, depth: nat)
    requires Read(base, path).Some?
    requires LeavesPatch(patch, path, depth)
    ensures Read(MergeInto(base, patch, depth), path) == Read(base, path)
    decreases |path|
  {
    if !patch.Undefined? && Takes(patch.fields, path[0]) {
      SiblingsSurvive(base.fields[path[0]], patch.fields[path[0]], path[1..], depth + 1);
    }
  }

  lemma {:induction false} PatchWins(base: JsValue, patch: JsValue, path: seq<string>, depth: nat)
    requires WrittenBy(patch, path)
    ensures Read(MergeInto(base, patch, depth), path) == Read(patch, path)
    decreases |path|
  {
    if path != [] && base.Object? && depth < MAX_DEPTH {
      var key := path[0];
      if patch.fields[key].Object? && key in base.fields && base.fields[key].Object? {
        PatchWins(base.fields[key], patch.fields[key], path[1..], depth + 1);
      }
    }
  }

  /** What a partial write does to the stored row: a path the patch does not reach reads
      as before, a path it assigns reads the assigned value, `null` included. */
  lemma {:induction false} DeepMergeReads(base: JsValue, patch: JsValue, path: seq<string>)
    ensures Read(base, path).Some? && LeavesPatch(patch, path, 0) ==>
              Read(DeepMerge(base, patch), path) == Read(base, path)
    ensures WrittenBy(patch, path) ==> Read(DeepMerge(base, patch), path) == Read(patch, path)
  {
    if Read(base, path).Some? && LeavesPatch(patch, path, 0) {
      SiblingsSurvive(base, patch, path, 0);
    }
    if WrittenBy(patch, path) {
      PatchWins(base, patch, path, 0);
    }
  }

  /** At the end of its reach the patch replaces, objects too. */
  lemma {:induction false} ReplacesBeyondReach(base: JsValue, patch: JsValue, path: seq<string>, depth: nat)
    requires depth + |path| == REACH && forall key :: key in path ==> key !in HAZARDS
    requires Read(patch, path).Some? && Read(patch, path).value.Object?
    ensures Read(MergeInto(base, patch, depth), path) == Read(patch, path)
    decreases |path|
  {
    if path != [] && base.Object? {
      var key := path[0];
      assert key in path && forall other :: other in path[1..] ==> other in path;
      if key in base.fields && base.fields[key].Object? {
        ReplacesBeyondReach(base.fields[key], patch.fields[key], path[1..], depth + 1);
      }
    }
  }

  /** A hazardous key of a merged object was already there with the same value: wherever
      both sides are objects, the patch can neither add nor change one. */
  lemma {:induction false} NeverPollutes(base: JsValue, patch: JsValue, path: seq<string>, key: string, depth: nat)
    requires key in HAZARDS && depth + |path| < REACH
    requires Read(base, path).Some? && Read(base, path).value.Object?
    requires Read(patch, path).Some? && Read(patch, path).value.Object?
    ensures Read(MergeInto(base, patch, depth), path + [key]) == Read(base, path + [key])
    decreases |path|
  {
    if path == [] {
      assert path + [key] == [key];
      assert Read(base, [key]) == if key in base.fields then Some(base.fields[key]) else None;
    } else {
      assert (path + [key])[0] == path[0] && (path + [key])[1..] == path[1..] + [key];
      if Takes(patch.fields, path[0]) {
        NeverPollutes(base.fields[path[0]], patch.fields[path[0]], path[1..], key, depth + 1);
      }
    }
  }
}
