/** The JSON Schema subset (src/schema.rs): JSON values, what a schema means, and the loader
    that accepts only schemas whose every keyword is known. Keywords are those of section 6
    of JSON Schema Validation Draft 2020-12 and section 10 of JSON Schema Core Draft 2020-12. */
module JsonSchema {
  import opened Wrappers
  import opened Doubles

  /** A number as it is parsed. */
  datatype Num = Int(whole: JsonInt) | Float(fraction: real)

  /** An object lists its members in key order, each key once. */
  datatype Json = Null | Bool(truth: bool) | Number(number: Num) | Text(text: string) | Array(items: seq<Json>)
                | Object(members: seq<Member>)

  datatype Member = Member(name: string, value: Json)

  // -------------------------------------------------------------------- accessors

  function Get(members: seq<Member>, name: string): (found: Option<Json>)
    ensures found.Some? ==> Member(name, found.value) in members
    ensures found.None? <==> forall m :: m in members ==> m.name != name
  {
    if members == [] then None
    else if members[0].name == name then Some(members[0].value)
    else Get(members[1..], name)
  }

  predicate Has(members: seq<Member>, name: string) {
    Get(members, name).Some?
  }

  function GetText(members: seq<Member>, name: string): Option<string> {
    var found := Get(members, name);
    if found.Some? && found.value.Text? then Some(found.value.text) else None
  }

  function GetArray(members: seq<Member>, name: string): Option<seq<Json>> {
    var found := Get(members, name);
    if found.Some? && found.value.Array? then Some(found.value.items) else None
  }

  function GetObject(members: seq<Member>, name: string): Option<seq<Member>> {
    var found := Get(members, name);
    if found.Some? && found.value.Object? then Some(found.value.members) else None
  }

  /** `as_u64`: only a non-negative number written as an integer. */
  function GetSize(members: seq<Member>, name: string): Option<nat> {
    var found := Get(members, name);
    if found.Some? && found.value.Number? && found.value.number.Int? && found.value.number.whole >= 0
    then Some(found.value.number.whole) else None
  }

  predicate IsInteger(number: Num) {
    number.Int? || number.fraction == number.fraction.Floor as real
  }

  /** `as_f64`: the float that a number is compared as. */
  function AsDouble(number: Num): real {
    if number.Int? then Double(number.whole) else number.fraction
  }

  function GetDouble(members: seq<Member>, name: string): Option<real> {
    var found := Get(members, name);
    if found.Some? && found.value.Number? then Some(AsDouble(found.value.number)) else None
  }

  // ------------------------------------------------------------------------ types

  function TypeName(value: Json): string {
    match value
    case Null => "null"
    case Bool(_) => "boolean"
    case Number(n) => if IsInteger(n) then "integer" else "number"
    case Text(_) => "string"
    case Array(_) => "array"
    case Object(_) => "object"
  }

  predicate IsOfType(name: string, value: Json) {
    if name == "number" then value.Number?
    else name in ["object", "array", "string", "boolean", "null", "integer"] && TypeName(value) == name
  }

  /** The `type` keyword: a name, or an array of which one name is enough. */
  predicate TypeMatches(expected: Json, value: Json) {
    match expected
    case Text(name) => IsOfType(name, value)
    case Array(names) => exists n :: n in names && n.Text? && IsOfType(n.text, value)
    case _ => false
  }

  // ------------------------------------------------------------ what a schema means

  function Defs(doc: Json): Option<seq<Member>> {
    if doc.Object? then GetObject(doc.members, "$defs") else None
  }

  const DEFS_PREFIX := "#/$defs/"

  /** Only references to a definition of the same document can be resolved. */
  function Resolve(doc: Json, reference: string): Option<Json> {
    if DEFS_PREFIX <= reference && Defs(doc).Some? then Get(Defs(doc).value, reference[|DEFS_PREFIX|..]) else None
  }

  /** What the checks of subschemas answer: does this value satisfy this subschema? */
  type Oracle = (Json, Json) -> bool

  /** The keywords of an object schema, each of them and all together. */
  ghost predicate KeywordsHold(doc: Json, s: seq<Member>, value: Json, sat: Oracle) {
    && RefHolds(doc, s, value, sat)
    && TypeHolds(s, value)
    && ConstantsHold(s, value)
    && StringHolds(s, value)
    && NumberHolds(s, value)
    && ObjectHolds(s, value, sat)
    && ArrayHolds(s, value, sat)
    && CompositionHolds(s, value, sat)
  }

  ghost predicate RefHolds(doc: Json, s: seq<Member>, value: Json, sat: Oracle) {
    var reference := GetText(s, "$ref");
    reference.Some? ==>
      Resolve(doc, reference.value).Some? && sat(Resolve(doc, reference.value).value, value)
  }

  predicate TypeHolds(s: seq<Member>, value: Json) {
    Has(s, "type") ==> TypeMatches(Get(s, "type").value, value)
  }

  predicate ConstantsHold(s: seq<Member>, value: Json) {
    && (GetArray(s, "enum").Some? ==> value in GetArray(s, "enum").value)
    && (Has(s, "const") ==> Get(s, "const").value == value)
  }

  predicate StringHolds(s: seq<Member>, value: Json) {
    value.Text? ==>
      && (GetSize(s, "minLength").Some? ==> GetSize(s, "minLength").value <= |value.text|)
      && (GetSize(s, "maxLength").Some? ==> |value.text| <= GetSize(s, "maxLength").value)
  }

  predicate NumberHolds(s: seq<Member>, value: Json) {
    value.Number? ==>
      && (GetDouble(s, "minimum").Some? ==> GetDouble(s, "minimum").value <= AsDouble(value.number))
      && (GetDouble(s, "maximum").Some? ==> AsDouble(value.number) <= GetDouble(s, "maximum").value)
      && (GetDouble(s, "exclusiveMinimum").Some? ==> GetDouble(s, "exclusiveMinimum").value < AsDouble(value.number))
      && (GetDouble(s, "exclusiveMaximum").Some? ==> AsDouble(value.number) < GetDouble(s, "exclusiveMaximum").value)
  }

  const BOUNDS := ["minimum", "maximum", "exclusiveMinimum", "exclusiveMaximum"]

  /** The bound is an integer, and it or the number itself is below 2^53 in magnitude. */
  predicate WholeBound(s: seq<Member>, keyword: string, whole: JsonInt) {
    var bound := Get(s, keyword);
    bound.Some? && bound.value.Number? ==>
      bound.value.number.Int? && (Small(bound.value.number.whole) || Small(whole))
  }

  function GetWhole(s: seq<Member>, keyword: string): Option<JsonInt> {
    var bound := Get(s, keyword);
    if bound.Some? && bound.value.Number? && bound.value.number.Int? then Some(bound.value.number.whole) else None
  }

  /** Up to 2^53 the four bounds compare the integers themselves. */
  lemma WholeBoundsAreExact(s: seq<Member>, whole: JsonInt)
    requires forall keyword :: keyword in BOUNDS ==> WholeBound(s, keyword, whole)
    ensures var min, max := GetWhole(s, "minimum"), GetWhole(s, "maximum");
            var above, below := GetWhole(s, "exclusiveMinimum"), GetWhole(s, "exclusiveMaximum");
            NumberHolds(s, Number(Int(whole)))
            <==> (min.Some? ==> min.value <= whole) && (max.Some? ==> whole <= max.value)
                 && (above.Some? ==> above.value < whole) && (below.Some? ==> whole < below.value)
  {
    forall keyword | keyword in BOUNDS
      ensures GetDouble(s, keyword).Some? <==> GetWhole(s, keyword).Some?
      ensures GetWhole(s, keyword).Some? ==>
                var bound := GetWhole(s, keyword).value;
                && GetDouble(s, keyword).value == Double(bound)
                && (Double(bound) < Double(whole) <==> bound < whole)
                && (Double(whole) < Double(bound) <==> whole < bound)
    {
      assert WholeBound(s, keyword, whole);
      if GetWhole(s, keyword).Some? {
        SmallComparesExactly(GetWhole(s, keyword).value, whole);
        SmallComparesExactly(whole, GetWhole(s, keyword).value);
      }
    }
    assert "minimum" in BOUNDS && "maximum" in BOUNDS && "exclusiveMinimum" in BOUNDS && "exclusiveMaximum" in BOUNDS;
  }

  /** From there on rounding can decide: 2^53 is refused as not below its successor. */
  lemma RoundingCanDecide()
    ensures !NumberHolds([Member("exclusiveMaximum", Number(Int(0x20_0000_0000_0001)))],
                         Number(Int(0x20_0000_0000_0000)))
  {
    var bound := Number(Int(0x20_0000_0000_0001));
    assert Get([Member("exclusiveMaximum", bound)], "exclusiveMaximum") == Some(bound);
    assert Spacing(0x10_0000_0000_0000) == 1;
    assert Spacing(0x20_0000_0000_0001) == Spacing(0x20_0000_0000_0000) == 2;
    assert Double(0x20_0000_0000_0001) == Double(0x20_0000_0000_0000);
  }

  ghost predicate ObjectHolds(s: seq<Member>, value: Json, sat: Oracle) {
    value.Object? ==>
      && RequiredHold(Listed(GetArray(s, "required")), value.members)
      && PropertiesHold(Listed(GetObject(s, "properties")), value.members, sat)
      && AdditionalHolds(s, value.members, sat)
  }

  ghost predicate RequiredHold(required: seq<Json>, members: seq<Member>) {
    forall n :: n in required && n.Text? ==> Has(members, n.text)
  }

  ghost predicate PropertiesHold(properties: seq<Member>, members: seq<Member>, sat: Oracle) {
    forall p :: p in properties && Has(members, p.name) ==> sat(p.value, Get(members, p.name).value)
  }

  /** The property is named under `properties`. */
  predicate Declared(s: seq<Member>, name: string) {
    Has(Listed(GetObject(s, "properties")), name)
  }

  ghost predicate AdditionalHolds(s: seq<Member>, members: seq<Member>, sat: Oracle) {
    var additional := Get(s, "additionalProperties");
    if additional.None? || additional.value == Bool(true) then true
    else if additional.value == Bool(false) then NothingElse(s, members)
    else OthersHold(s, additional.value, members, sat)
  }

  ghost predicate NothingElse(s: seq<Member>, members: seq<Member>) {
    forall m :: m in members ==> Declared(s, m.name)
  }

  ghost predicate OthersHold(s: seq<Member>, additional: Json, members: seq<Member>, sat: Oracle) {
    forall m :: m in members && !Declared(s, m.name) ==> sat(additional, m.value)
  }

  ghost predicate ArrayHolds(s: seq<Member>, value: Json, sat: Oracle) {
    value.Array? ==>
      && (Has(s, "items") ==> EachHolds(Get(s, "items").value, value.items, sat))
      && (GetSize(s, "minItems").Some? ==> GetSize(s, "minItems").value <= |value.items|)
      && (GetSize(s, "maxItems").Some? ==> |value.items| <= GetSize(s, "maxItems").value)
      && (Get(s, "uniqueItems") == Some(Bool(true)) ==> Distinct(value.items))
  }

  ghost predicate EachHolds(schema: Json, values: seq<Json>, sat: Oracle) {
    forall v :: v in values ==> sat(schema, v)
  }

  ghost predicate Distinct(items: seq<Json>) {
    forall i, j :: 0 <= i < j < |items| ==> items[i] != items[j]
  }

  ghost predicate CompositionHolds(s: seq<Member>, value: Json, sat: Oracle) {
    && (GetArray(s, "anyOf").Some? ==> SomeHolds(GetArray(s, "anyOf").value, value, sat))
    && (GetArray(s, "oneOf").Some? ==> OneHolds(GetArray(s, "oneOf").value, value, sat))
    && AllHold(Listed(GetArray(s, "allOf")), value, sat)
    && (Has(s, "not") ==> !sat(Get(s, "not").value, value))
  }

  ghost predicate SomeHolds(branches: seq<Json>, value: Json, sat: Oracle) {
    exists b :: b in branches && sat(b, value)
  }

  ghost predicate AllHold(branches: seq<Json>, value: Json, sat: Oracle) {
    forall b :: b in branches ==> sat(b, value)
  }

  /** Exactly one branch, by position, is satisfied. */
  ghost predicate OneHolds(branches: seq<Json>, value: Json, sat: Oracle) {
    exists i :: OnlyHolds(branches, value, sat, i)
  }

  ghost predicate OnlyHolds(branches: seq<Json>, value: Json, sat: Oracle, i: int) {
    0 <= i < |branches| && forall j :: 0 <= j < |branches| ==> (sat(branches[j], value) <==> j == i)
  }

  /** How many branches are satisfied. */
  ghost function Matches(branches: seq<Json>, value: Json, sat: Oracle): nat {
    if branches == [] then 0
    else
      var last := |branches| - 1;
      Matches(branches[..last], value, sat) + (if sat(branches[last], value) then 1 else 0)
  }

  lemma {:induction false} OneMatchIsOneHolds(branches: seq<Json>, value: Json, sat: Oracle)
    ensures Matches(branches, value, sat) == 0 <==> !SomeHolds(branches, value, sat)
    ensures Matches(branches, value, sat) == 1 <==> OneHolds(branches, value, sat)
  {
    if branches != [] {
      var last := |branches| - 1;
      var before := branches[..last];
      OneMatchIsOneHolds(before, value, sat);
      assert branches == before + [branches[last]];
      if sat(branches[last], value) {
        OnlyLastHolds(before, branches[last], value, sat);
      } else {
        LastFails(before, branches[last], value, sat);
      }
    }
  }

  lemma OnlyLastHolds(before: seq<Json>, last: Json, value: Json, sat: Oracle)
    requires sat(last, value)
    ensures SomeHolds(before + [last], value, sat)
    ensures OneHolds(before + [last], value, sat) <==> !SomeHolds(before, value, sat)
  {
    var branches := before + [last];
    assert branches[|before|] == last;
    if !SomeHolds(before, value, sat) {
      assert forall j :: 0 <= j < |before| ==> branches[j] in before;
      assert OnlyHolds(branches, value, sat, |before|);
    }
    if i :| OnlyHolds(branches, value, sat, i) {
      forall b | b in before ensures !sat(b, value) {
        var j :| 0 <= j < |before| && before[j] == b;
        assert branches[j] == b;
      }
    }
  }

  lemma LastFails(before: seq<Json>, last: Json, value: Json, sat: Oracle)
    requires !sat(last, value)
    ensures SomeHolds(before + [last], value, sat) <==> SomeHolds(before, value, sat)
    ensures OneHolds(before + [last], value, sat) <==> OneHolds(before, value, sat)
  {
    var branches := before + [last];
    assert forall j :: 0 <= j < |before| ==> branches[j] == before[j];
    assert branches[|before|] == last;
    if OneHolds(branches, value, sat) {
      var i :| OnlyHolds(branches, value, sat, i);
      assert OnlyHolds(before, value, sat, i);
    }
    if OneHolds(before, value, sat) {
      var i :| OnlyHolds(before, value, sat, i);
      assert OnlyHolds(branches, value, sat, i);
    }
  }

  function Listed<T>(found: Option<seq<T>>): seq<T> {
    if found.Some? then found.value else []
  }

  // -------------------------------------------------------- satisfaction, with a cap

  /** `value` satisfies `schema`, following at most `fuel` levels of subschemas and
      references; a schema that needs more is not satisfied. */
  ghost predicate Sat(doc: Json, schema: Json, value: Json, fuel: nat)
    decreases fuel, 0
  {
    && fuel > 0
    && (schema == Bool(true) || (schema.Object? && KeywordsHold(doc, schema.members, value, SatWith(doc, fuel - 1))))
  }

  ghost function SatWith(doc: Json, fuel: nat): Oracle
    decreases fuel, 1
  {
    (schema, value) => Sat(doc, schema, value, fuel)
  }

  // -------------------------------------------------------------- subschemas, nesting

  /** The nodes that checking against an object schema descends to. */
  ghost predicate Descends(doc: Json, s: seq<Member>, child: Json) {
    || (GetText(s, "$ref").Some? && Resolve(doc, GetText(s, "$ref").value) == Some(child))
    || (exists p :: p in Listed(GetObject(s, "properties")) && p.value == child)
    || (Get(s, "additionalProperties") == Some(child) && !child.Bool?)
    || Get(s, "items") == Some(child)
    || child in Listed(GetArray(s, "anyOf"))
    || child in Listed(GetArray(s, "oneOf"))
    || child in Listed(GetArray(s, "allOf"))
    || Get(s, "not") == Some(child)
  }

  /** The keywords ask about nothing but the nodes they descend to. */
  lemma KeywordsAskChildren(doc: Json, s: seq<Member>, value: Json, sat: Oracle, sat': Oracle)
    requires forall child, v :: Descends(doc, s, child) ==> sat(child, v) == sat'(child, v)
    ensures KeywordsHold(doc, s, value, sat) <==> KeywordsHold(doc, s, value, sat')
  {
    assert ObjectHolds(s, value, sat) <==> ObjectHolds(s, value, sat') by {
      forall p | p in Listed(GetObject(s, "properties")) ensures Descends(doc, s, p.value) {
      }
    }
    assert CompositionHolds(s, value, sat) <==> CompositionHolds(s, value, sat') by {
      BranchesAskChildren(doc, s, value, sat, sat');
    }
  }

  lemma BranchesAskChildren(doc: Json, s: seq<Member>, value: Json, sat: Oracle, sat': Oracle)
    requires forall child, v :: Descends(doc, s, child) ==> sat(child, v) == sat'(child, v)
    ensures CompositionHolds(s, value, sat) <==> CompositionHolds(s, value, sat')
  {
    SameBranches(Listed(GetArray(s, "oneOf")), value, sat, sat');
    SameBranches(Listed(GetArray(s, "anyOf")), value, sat, sat');
  }

  lemma SameBranches(branches: seq<Json>, value: Json, sat: Oracle, sat': Oracle)
    requires forall b :: b in branches ==> sat(b, value) == sat'(b, value)
    ensures OneHolds(branches, value, sat) <==> OneHolds(branches, value, sat')
    ensures SomeHolds(branches, value, sat) <==> SomeHolds(branches, value, sat')
  {
    forall i ensures OnlyHolds(branches, value, sat, i) <==> OnlyHolds(branches, value, sat', i) {
      assert forall j :: 0 <= j < |branches| ==> branches[j] in branches;
    }
  }

  /** No chain of subschemas and references from `schema` is longer than `height`. */
  ghost predicate Nests(doc: Json, schema: Json, height: nat)
    decreases height
  {
    schema.Object? ==>
      forall child :: Descends(doc, schema.members, child) ==> height > 0 && Nests(doc, child, height - 1)
  }

  /** Once the nesting is covered, more fuel changes nothing. */
  lemma {:induction false} FuelIsEnough(doc: Json, schema: Json, value: Json, height: nat, fuel: nat)
    requires Nests(doc, schema, height) && height < fuel
    ensures Sat(doc, schema, value, fuel) <==> Sat(doc, schema, value, height + 1)
    decreases height
  {
    if schema.Object? {
      var sat, sat' := SatWith(doc, fuel - 1), SatWith(doc, height);
      forall child, v | Descends(doc, schema.members, child) ensures sat(child, v) == sat'(child, v) {
        FuelIsEnough(doc, child, v, height - 1, fuel - 1);
      }
      KeywordsAskChildren(doc, schema.members, value, sat, sat');
    }
  }

  /** The meaning of a schema whose references do not run in circles. */
  ghost predicate Means(doc: Json, schema: Json, value: Json) {
    exists height: nat :: Nests(doc, schema, height) && Sat(doc, schema, value, height + 1)
  }

  lemma {:induction false} HigherAgrees(doc: Json, schema: Json, value: Json, h: nat, height: nat)
    requires Nests(doc, schema, h) && h <= height
    ensures Sat(doc, schema, value, h + 1) <==> Sat(doc, schema, value, height + 1)
  {
    FuelIsEnough(doc, schema, value, h, height + 1);
  }

  lemma {:induction false} MeansIsSat(doc: Json, schema: Json, value: Json, height: nat, fuel: nat)
    requires Nests(doc, schema, height) && height < fuel
    ensures Means(doc, schema, value) <==> Sat(doc, schema, value, fuel)
  {
    FuelIsEnough(doc, schema, value, height, fuel);
    if Means(doc, schema, value) {
      var h: nat :| Nests(doc, schema, h) && Sat(doc, schema, value, h + 1);
      if h < height {
        HigherAgrees(doc, schema, value, h, height);
      } else {
        HigherAgrees(doc, schema, value, height, h);
      }
    }
  }

  /** The meaning needs no fuel to be stated: a schema without circular references means
      that all its keywords hold, their subschemas taken by their own meaning. */
  lemma {:induction false} MeansByKeywords(doc: Json, schema: Json, value: Json, height: nat)
    requires Nests(doc, schema, height)
    ensures Means(doc, schema, value)
       <==> schema == Bool(true)
            || (schema.Object? && KeywordsHold(doc, schema.members, value, (s, v) => Means(doc, s, v)))
  {
    MeansIsSat(doc, schema, value, height, height + 1);
    if schema.Object? {
      var sat, means := SatWith(doc, height), (s, v) => Means(doc, s, v);
      forall child, v | Descends(doc, schema.members, child) ensures sat(child, v) == means(child, v) {
        MeansIsSat(doc, child, v, height - 1, height);
      }
      KeywordsAskChildren(doc, schema.members, value, sat, means);
    }
  }

  // -------------------------------------------------------------------- the loader

  const ENFORCED := ["$ref", "type", "enum", "const", "required", "properties", "additionalProperties", "items",
                     "minimum", "maximum", "exclusiveMinimum", "exclusiveMaximum", "minLength", "maxLength",
                     "minItems", "maxItems", "uniqueItems", "anyOf", "oneOf", "allOf", "not"]

  const METADATA := ["$schema", "$id", "$defs", "$comment", "title", "description", "default", "examples",
                     "deprecated", "readOnly", "writeOnly"]

  datatype SchemaError =
    | RootNotAnObject | NotASchema | NotAnObjectOfSchemas(keyword: string) | NotAnArrayOfSchemas(keyword: string)
    | Unsupported(keyword: string)

  /** Walk the schema grammar and refuse what the checker would not enforce. */
  function CheckSupported(node: Json): Result<(), SchemaError> {
    match node
    case Bool(_) => Success(())
    case Object(members) => CheckKeywords(members)
    case _ => Failure(NotASchema)
  }

  function CheckKeywords(members: seq<Member>): Result<(), SchemaError> {
    if members == [] then Success(())
    else
      var first := CheckKeyword(members[0]);
      if first.Failure? then first else CheckKeywords(members[1..])
  }

  function CheckKeyword(m: Member): Result<(), SchemaError> {
    var key := m.name;
    if key in ["properties", "$defs"] then
      if m.value.Object? then CheckNamed(m.value.members) else Failure(NotAnObjectOfSchemas(key))
    else if key in ["items", "additionalProperties", "not"] then CheckSupported(m.value)
    else if key in ["anyOf", "oneOf", "allOf"] then
      if m.value.Array? then CheckBranches(m.value.items) else Failure(NotAnArrayOfSchemas(key))
    else if key in ENFORCED || key in METADATA then Success(())
    else Failure(Unsupported(key))
  }

  function CheckNamed(members: seq<Member>): Result<(), SchemaError> {
    if members == [] then Success(())
    else
      var first := CheckSupported(members[0].value);
      if first.Failure? then first else CheckNamed(members[1..])
  }

  function CheckBranches(branches: seq<Json>): Result<(), SchemaError> {
    if branches == [] then Success(())
    else
      var first := CheckSupported(branches[0]);
      if first.Failure? then first else CheckBranches(branches[1..])
  }

  /** `from_json`, the text already parsed. */
  function Load(root: Json): Result<Json, SchemaError> {
    if !root.Object? then Failure(RootNotAnObject)
    else
      var checked := CheckSupported(root);
      if checked.Failure? then Failure(checked.error) else Success(root)
  }

  /** A node that the checker can interpret without ignoring anything. */
  ghost predicate Known(node: Json) {
    || node.Bool?
    || (node.Object? && forall m :: m in node.members ==> m.name in ENFORCED || m.name in METADATA)
  }

  lemma {:induction false} KeywordChecked(members: seq<Member>, m: Member)
    requires CheckKeywords(members).Success? && m in members
    ensures CheckKeyword(m).Success?
  {
    if members[0] != m {
      KeywordChecked(members[1..], m);
    }
  }

  lemma {:induction false} NamedChecked(members: seq<Member>, m: Member)
    requires CheckNamed(members).Success? && m in members
    ensures CheckSupported(m.value).Success?
  {
    if members[0] != m {
      NamedChecked(members[1..], m);
    }
  }

  lemma {:induction false} BranchChecked(branches: seq<Json>, b: Json)
    requires CheckBranches(branches).Success? && b in branches
    ensures CheckSupported(b).Success?
  {
    if branches[0] != b {
      BranchChecked(branches[1..], b);
    }
  }

  lemma {:induction false} CheckedIsKnown(node: Json)
    requires CheckSupported(node).Success?
    ensures Known(node)
  {
    if node.Object? {
      forall m | m in node.members ensures m.name in ENFORCED || m.name in METADATA {
        KeywordChecked(node.members, m);
      }
    }
  }

  /** A definition of a loaded document was checked with it. */
  lemma {:induction false} DefinitionChecked(doc: Json, name: string, node: Json)
    requires CheckSupported(doc).Success? && Defs(doc).Some? && Get(Defs(doc).value, name) == Some(node)
    ensures CheckSupported(node).Success?
  {
    KeywordChecked(doc.members, Member("$defs", Object(Defs(doc).value)));
    NamedChecked(Defs(doc).value, Member(name, node));
  }

  lemma {:induction false} BranchesChecked(s: seq<Member>, keyword: string, child: Json)
    requires CheckSupported(Object(s)).Success? && keyword in ["anyOf", "oneOf", "allOf"]
    requires child in Listed(GetArray(s, keyword))
    ensures CheckSupported(child).Success?
  {
    KeywordChecked(s, Member(keyword, Array(Listed(GetArray(s, keyword)))));
    BranchChecked(Listed(GetArray(s, keyword)), child);
  }

  lemma {:induction false} SubschemaChecked(s: seq<Member>, keyword: string, child: Json)
    requires CheckSupported(Object(s)).Success? && keyword in ["items", "additionalProperties", "not"]
    requires Get(s, keyword) == Some(child)
    ensures CheckSupported(child).Success?
  {
    KeywordChecked(s, Member(keyword, child));
  }

  lemma PropertyChecked(s: seq<Member>, p: Member)
    requires CheckSupported(Object(s)).Success? && p in Listed(GetObject(s, "properties"))
    ensures CheckSupported(p.value).Success?
  {
    KeywordChecked(s, Member("properties", Object(Listed(GetObject(s, "properties")))));
    NamedChecked(Listed(GetObject(s, "properties")), p);
  }

  lemma {:induction false} DescendantChecked(doc: Json, s: seq<Member>, child: Json)
    requires CheckSupported(doc).Success? && CheckSupported(Object(s)).Success? && Descends(doc, s, child)
    ensures CheckSupported(child).Success?
  {
    if GetText(s, "$ref").Some? && Resolve(doc, GetText(s, "$ref").value) == Some(child) {
      DefinitionChecked(doc, GetText(s, "$ref").value[|DEFS_PREFIX|..], child);
    } else if p :| p in Listed(GetObject(s, "properties")) && p.value == child {
      PropertyChecked(s, p);
    } else if keyword :| keyword in ["items", "additionalProperties", "not"] && Get(s, keyword) == Some(child) {
      SubschemaChecked(s, keyword, child);
    } else {
      var keyword :| keyword in ["anyOf", "oneOf", "allOf"] && child in Listed(GetArray(s, keyword));
      BranchesChecked(s, keyword, child);
    }
  }

  /** Nodes each of which the checker can reach from the one before. */
  ghost predicate Chain(doc: Json, nodes: seq<Json>)
    decreases |nodes|
  {
    |nodes| > 1 ==>
      var last := |nodes| - 1;
      && nodes[last - 1].Object? && Descends(doc, nodes[last - 1].members, nodes[last])
      && Chain(doc, nodes[..last])
  }

  /** The loader fails closed: in a document that it accepts, every node that checking a
      value can reach from a definition, through keywords and references, is a schema with
      known keywords only. */
  lemma {:induction false} LoadedIsKnownThroughout(doc: Json, name: string, nodes: seq<Json>)
    requires Load(doc).Success? && Defs(doc).Some? && nodes != []
    requires Get(Defs(doc).value, name) == Some(nodes[0]) && Chain(doc, nodes)
    ensures Known(nodes[|nodes| - 1])
    ensures CheckSupported(nodes[|nodes| - 1]).Success?
    decreases |nodes|
  {
    var last := |nodes| - 1;
    if last == 0 {
      DefinitionChecked(doc, name, nodes[0]);
    } else {
      LoadedIsKnownThroughout(doc, name, nodes[..last]);
      DescendantChecked(doc, nodes[last - 1].members, nodes[last]);
    }
    CheckedIsKnown(nodes[last]);
  }

  // -------------------------------------------------------------- circular references

  /** A definition that refers to itself is satisfied by nothing, however deep one looks. */
  lemma {:induction false} SelfReferenceFails(doc: Json, s: seq<Member>, value: Json, fuel: nat)
    requires GetText(s, "$ref").Some? && Resolve(doc, GetText(s, "$ref").value) == Some(Object(s))
    ensures !Sat(doc, Object(s), value, fuel)
  {
    if fuel > 0 {
      SelfReferenceFails(doc, s, value, fuel - 1);
    }
  }

  /** A definition that negates itself has no meaning that a cap could approach: one more
      level turns the answer round. */
  lemma SelfNegationFlips(doc: Json, s: seq<Member>, value: Json, fuel: nat)
    requires s == [Member("not", Object([Member("$ref", Text("#/$defs/A"))]))]
    requires Resolve(doc, "#/$defs/A") == Some(Object(s))
    ensures Sat(doc, Object(s), value, fuel + 2) <==> !Sat(doc, Object(s), value, fuel)
  {
    OnlyReference(doc, [Member("$ref", Text("#/$defs/A"))], Text("#/$defs/A"), value, fuel);
    OnlyNegation(doc, s, Object([Member("$ref", Text("#/$defs/A"))]), value, fuel + 1);
  }

  lemma {:induction false} OnlyReference(doc: Json, s: seq<Member>, reference: Json, value: Json, fuel: nat)
    requires s == [Member("$ref", reference)] && reference.Text? && Resolve(doc, reference.text).Some?
    ensures Sat(doc, Object(s), value, fuel + 1) <==> Sat(doc, Resolve(doc, reference.text).value, value, fuel)
  {
    assert s[1..] == [];
    NoValueKeywords(s, value);
    NoSubschemas(s, value, SatWith(doc, fuel));
    assert Get(s, "not").None?;
  }

  lemma OnlyNegation(doc: Json, s: seq<Member>, negated: Json, value: Json, fuel: nat)
    requires s == [Member("not", negated)]
    ensures Sat(doc, Object(s), value, fuel + 1) <==> !Sat(doc, negated, value, fuel)
  {
    assert s[1..] == [];
    NoValueKeywords(s, value);
    NoSubschemas(s, value, SatWith(doc, fuel));
    assert Get(s, "$ref").None?;
  }

  lemma NoValueKeywords(s: seq<Member>, value: Json)
    requires |s| == 1 && s[1..] == [] && s[0].name in ["$ref", "not"]
    ensures TypeHolds(s, value) && ConstantsHold(s, value) && StringHolds(s, value) && NumberHolds(s, value)
  {
  }

  lemma {:induction false} NoSubschemas(s: seq<Member>, value: Json, sat: Oracle)
    requires |s| == 1 && s[1..] == [] && s[0].name in ["$ref", "not"]
    ensures ObjectHolds(s, value, sat) && ArrayHolds(s, value, sat)
    ensures CompositionHolds(s, value, sat) <==> (Has(s, "not") ==> !sat(Get(s, "not").value, value))
  {
  }
}
