/** What each keyword of the JSON Schema subset demands when it stands alone, told in the
    values themselves (section 6 of JSON Schema Validation Draft 2020-12 and section 10 of JSON
    Schema Core Draft 2020-12). */
module SchemaKeywords {
  import opened Wrappers
  import opened Doubles
  import opened JsonSchema
  import opened SchemaReport

  function Only(keyword: string, v: Json): Json {
    Object([Member(keyword, v)])
  }

  /** The value satisfies the schema made of one keyword. */
  ghost predicate Meets(doc: Json, keyword: string, v: Json, value: Json, fuel: nat) {
    Sat(doc, Only(keyword, v), value, fuel + 1)
  }

  lemma {:induction false} OnlyGet(keyword: string, v: Json, name: string)
    ensures Get([Member(keyword, v)], name) == if name == keyword then Some(v) else None
  {
    assert [Member(keyword, v)][1..] == [];
  }

  // -------------------------------------------------- keywords that are not there hold

  lemma NoReference(doc: Json, keyword: string, v: Json, value: Json, sat: Oracle)
    requires keyword != "$ref"
    ensures RefHolds(doc, [Member(keyword, v)], value, sat)
  {
    OnlyGet(keyword, v, "$ref");
  }

  lemma NoScalars(keyword: string, v: Json, value: Json)
    ensures keyword != "type" ==> TypeHolds([Member(keyword, v)], value)
    ensures keyword != "enum" && keyword != "const" ==> ConstantsHold([Member(keyword, v)], value)
    ensures keyword != "minLength" && keyword != "maxLength" ==> StringHolds([Member(keyword, v)], value)
  {
    OnlyGet(keyword, v, "type");
    OnlyGet(keyword, v, "enum");
    OnlyGet(keyword, v, "const");
    OnlyGet(keyword, v, "minLength");
    OnlyGet(keyword, v, "maxLength");
  }

  lemma NoBounds(keyword: string, v: Json, value: Json)
    requires keyword !in BOUNDS
    ensures NumberHolds([Member(keyword, v)], value)
  {
    OnlyGet(keyword, v, "minimum");
    OnlyGet(keyword, v, "maximum");
    OnlyGet(keyword, v, "exclusiveMinimum");
    OnlyGet(keyword, v, "exclusiveMaximum");
  }

  lemma NoObject(keyword: string, v: Json, value: Json, sat: Oracle)
    requires keyword !in ["required", "properties", "additionalProperties"]
    ensures ObjectHolds([Member(keyword, v)], value, sat)
  {
    OnlyGet(keyword, v, "required");
    OnlyGet(keyword, v, "properties");
    OnlyGet(keyword, v, "additionalProperties");
  }

  lemma NoArray(keyword: string, v: Json, value: Json, sat: Oracle)
    requires keyword !in ["items", "minItems", "maxItems", "uniqueItems"]
    ensures ArrayHolds([Member(keyword, v)], value, sat)
  {
    OnlyGet(keyword, v, "items");
    OnlyGet(keyword, v, "minItems");
    OnlyGet(keyword, v, "maxItems");
    OnlyGet(keyword, v, "uniqueItems");
  }

  lemma NoComposition(keyword: string, v: Json, value: Json, sat: Oracle)
    requires keyword !in ["anyOf", "oneOf", "allOf", "not"]
    ensures CompositionHolds([Member(keyword, v)], value, sat)
  {
    OnlyGet(keyword, v, "anyOf");
    OnlyGet(keyword, v, "oneOf");
    OnlyGet(keyword, v, "allOf");
    OnlyGet(keyword, v, "not");
  }

  // ------------------------------------------------------------------------------- type

  /** The number is whole: written as an integer, or a float without a fraction. */
  ghost predicate Whole(number: Num) {
    number.Int? || exists whole: int :: Exactly(number.fraction, whole)
  }

  predicate Exactly(x: real, whole: int) {
    x == whole as real
  }

  ghost predicate HasType(name: string, value: Json) {
    || (name == "null" && value.Null?)
    || (name == "boolean" && value.Bool?)
    || (name == "string" && value.Text?)
    || (name == "array" && value.Array?)
    || (name == "object" && value.Object?)
    || (name == "number" && value.Number?)
    || (name == "integer" && value.Number? && Whole(value.number))
  }

  lemma WholeIsInteger(number: Num)
    ensures Whole(number) <==> IsInteger(number)
  {
    if number.Float? && IsInteger(number) {
      assert Exactly(number.fraction, number.fraction.Floor);
    }
  }

  lemma OneType(name: string, value: Json)
    ensures IsOfType(name, value) <==> HasType(name, value)
  {
    if value.Number? {
      WholeIsInteger(value.number);
    }
  }

  lemma {:induction false} OnlyType(doc: Json, v: Json, value: Json, fuel: nat)
    ensures Meets(doc, "type", v, value, fuel) <==> TypeMatches(v, value)
  {
    var sat := SatWith(doc, fuel);
    OnlyGet("type", v, "type");
    NoReference(doc, "type", v, value, sat);
    NoScalars("type", v, value);
    NoBounds("type", v, value);
    NoObject("type", v, value, sat);
    NoArray("type", v, value, sat);
    NoComposition("type", v, value, sat);
  }

  /** A type name admits exactly the values of that type, "integer" every whole number and
      "number" all of them; an unknown name admits nothing. Of a list one text name must admit
      the value; anything else admits nothing. */
  lemma TypeLaw(doc: Json, v: Json, value: Json, fuel: nat)
    ensures Meets(doc, "type", v, value, fuel)
       <==> match v
            case Text(name) => HasType(name, value)
            case Array(names) => exists n :: n in names && n.Text? && HasType(n.text, value)
            case _ => false
  {
    OnlyType(doc, v, value, fuel);
    if v.Text? {
      OneType(v.text, value);
    } else if v.Array? {
      forall n | n in v.items && n.Text? ensures IsOfType(n.text, value) <==> HasType(n.text, value) {
        OneType(n.text, value);
      }
    }
  }

  /** The only violation that a wrong type reports names the type of the value: the one name
      that admits it, and for a whole number "integer". */
  lemma {:induction false} WrongTypeIsNamed(doc: Json, v: Json, value: Json, path: string, depth: nat)
    requires depth <= 64 && !TypeMatches(v, value)
    ensures exists name ::
              && Violations(doc, Site(Only("type", v), value, path), depth) == [Violation(path, WrongType(name))]
              && HasType(name, value) && (name == "number" ==> !HasType("integer", value))
  {
    OnlyGet("type", v, "type");
    OnlyGet("type", v, "$ref");
    var name := TypeName(value);
    if value.Number? {
      WholeIsInteger(value.number);
    }
    assert ReferenceReport(doc, [Member("type", v)], value, path, depth) == [];
    assert Violations(doc, Site(Only("type", v), value, path), depth) == [Violation(path, WrongType(name))];
  }

  // ------------------------------------------------------------ constants, text, numbers

  lemma {:induction false} OnlyScalar(doc: Json, keyword: string, v: Json, value: Json, fuel: nat)
    requires keyword != "$ref" && keyword != "type" && keyword !in BOUNDS
    requires keyword !in ["required", "properties", "additionalProperties"]
    requires keyword !in ["items", "minItems", "maxItems", "uniqueItems"]
    requires keyword !in ["anyOf", "oneOf", "allOf", "not"]
    ensures Meets(doc, keyword, v, value, fuel)
       <==> ConstantsHold([Member(keyword, v)], value) && StringHolds([Member(keyword, v)], value)
  {
    var sat := SatWith(doc, fuel);
    NoReference(doc, keyword, v, value, sat);
    NoScalars(keyword, v, value);
    NoBounds(keyword, v, value);
    NoObject(keyword, v, value, sat);
    NoArray(keyword, v, value, sat);
    NoComposition(keyword, v, value, sat);
  }

  /** `enum` admits what it lists. */
  lemma EnumLaw(doc: Json, v: Json, value: Json, fuel: nat)
    ensures Meets(doc, "enum", v, value, fuel) <==> (v.Array? ==> value in v.items)
  {
    OnlyScalar(doc, "enum", v, value, fuel);
    NoScalars("enum", v, value);
    OnlyGet("enum", v, "enum");
    OnlyGet("enum", v, "const");
  }

  /** `const` admits the one value. */
  lemma ConstLaw(doc: Json, v: Json, value: Json, fuel: nat)
    ensures Meets(doc, "const", v, value, fuel) <==> value == v
  {
    OnlyScalar(doc, "const", v, value, fuel);
    NoScalars("const", v, value);
    OnlyGet("const", v, "enum");
    OnlyGet("const", v, "const");
  }

  /** A natural number that is written as an integer. */
  predicate IsSize(v: Json) {
    v.Number? && v.number.Int? && v.number.whole >= 0
  }

  /** Length bounds bind texts alone, and only where the bound is a natural number. */
  lemma LengthLaw(doc: Json, v: Json, value: Json, fuel: nat)
    ensures Meets(doc, "minLength", v, value, fuel)
       <==> (value.Text? && IsSize(v) ==> v.number.whole <= |value.text|)
    ensures Meets(doc, "maxLength", v, value, fuel)
       <==> (value.Text? && IsSize(v) ==> |value.text| <= v.number.whole)
  {
    OnlyScalar(doc, "minLength", v, value, fuel);
    OnlyScalar(doc, "maxLength", v, value, fuel);
    NoScalars("minLength", v, value);
    NoScalars("maxLength", v, value);
    OnlyGet("minLength", v, "minLength");
    OnlyGet("minLength", v, "maxLength");
    OnlyGet("maxLength", v, "minLength");
    OnlyGet("maxLength", v, "maxLength");
  }

  lemma {:induction false} OnlyBound(doc: Json, keyword: string, v: Json, value: Json, fuel: nat)
    requires keyword in BOUNDS
    ensures Meets(doc, keyword, v, value, fuel) <==> NumberHolds([Member(keyword, v)], value)
  {
    var sat := SatWith(doc, fuel);
    NoReference(doc, keyword, v, value, sat);
    NoScalars(keyword, v, value);
    NoObject(keyword, v, value, sat);
    NoArray(keyword, v, value, sat);
    NoComposition(keyword, v, value, sat);
  }

  ghost predicate Within(keyword: string, bound: real, number: real) {
    && (keyword == "minimum" ==> bound <= number)
    && (keyword == "maximum" ==> number <= bound)
    && (keyword == "exclusiveMinimum" ==> bound < number)
    && (keyword == "exclusiveMaximum" ==> number < bound)
  }

  /** The 64-bit float of a number: its own if it has a fraction part, and of an integer the
      nearest one, the integer itself up to 2^53. */
  function AsFloat(number: Num): real {
    match number
    case Float(fraction) => fraction
    case Int(whole) => Double(whole)
  }

  /** Each bound binds numbers alone, and only where the bound is a number. */
  lemma BoundLaw(doc: Json, keyword: string, v: Json, value: Json, fuel: nat)
    requires keyword in ["minimum", "maximum", "exclusiveMinimum", "exclusiveMaximum"]
    ensures Meets(doc, keyword, v, value, fuel)
       <==> (value.Number? && v.Number? ==> Within(keyword, AsFloat(v.number), AsFloat(value.number)))
  {
    OnlyBound(doc, keyword, v, value, fuel);
    OnlyGet(keyword, v, "minimum");
    OnlyGet(keyword, v, "maximum");
    OnlyGet(keyword, v, "exclusiveMinimum");
    OnlyGet(keyword, v, "exclusiveMaximum");
  }

  // ---------------------------------------------------------------------------- objects

  lemma {:induction false} OnlyObject(doc: Json, keyword: string, v: Json, value: Json, fuel: nat)
    requires keyword in ["required", "properties", "additionalProperties"]
    ensures Meets(doc, keyword, v, value, fuel) <==> ObjectHolds([Member(keyword, v)], value, SatWith(doc, fuel))
  {
    var sat := SatWith(doc, fuel);
    NoReference(doc, keyword, v, value, sat);
    NoScalars(keyword, v, value);
    NoBounds(keyword, v, value);
    NoArray(keyword, v, value, sat);
    NoComposition(keyword, v, value, sat);
  }

  /** Some member of the object has the name. */
  ghost predicate Named(members: seq<Member>, name: string) {
    exists m :: m in members && m.name == name
  }

  /** An object lists each key once. */
  ghost predicate KeysOnce(members: seq<Member>) {
    forall m, m' :: m in members && m' in members && m.name == m'.name ==> m == m'
  }

  lemma {:induction false} GetIsMember(members: seq<Member>, name: string)
    requires KeysOnce(members)
    ensures Has(members, name) <==> Named(members, name)
    ensures forall m :: m in members && m.name == name ==> Get(members, name) == Some(m.value)
  {
    if Get(members, name).Some? {
      assert Member(name, Get(members, name).value) in members;
    }
  }

  /** `required` demands a member for each text it lists. */
  lemma RequiredLaw(doc: Json, v: Json, value: Json, fuel: nat)
    requires value.Object? ==> KeysOnce(value.members)
    ensures Meets(doc, "required", v, value, fuel)
       <==> (value.Object? && v.Array? ==> forall n :: n in v.items && n.Text? ==> Named(value.members, n.text))
  {
    OnlyObject(doc, "required", v, value, fuel);
    OnlyGet("required", v, "required");
    OnlyGet("required", v, "properties");
    OnlyGet("required", v, "additionalProperties");
    if value.Object? {
      forall name ensures Has(value.members, name) <==> Named(value.members, name) {
        GetIsMember(value.members, name);
      }
    }
  }

  /** `properties` demands of each member it names that the member satisfies its schema. */
  lemma {:induction false} PropertiesLaw(doc: Json, v: Json, value: Json, fuel: nat)
    requires (value.Object? ==> KeysOnce(value.members)) && (v.Object? ==> KeysOnce(v.members))
    ensures Meets(doc, "properties", v, value, fuel)
       <==> (value.Object? && v.Object? ==>
               forall p, m :: p in v.members && m in value.members && p.name == m.name ==>
                 Sat(doc, p.value, m.value, fuel))
  {
    OnlyObject(doc, "properties", v, value, fuel);
    OnlyGet("properties", v, "required");
    OnlyGet("properties", v, "properties");
    OnlyGet("properties", v, "additionalProperties");
    if value.Object? {
      forall name ensures Has(value.members, name) <==> Named(value.members, name)
                  ensures forall m :: m in value.members && m.name == name ==>
                            Get(value.members, name) == Some(m.value) {
        GetIsMember(value.members, name);
      }
    }
  }

  /** `additionalProperties` alone speaks of every member: `false` forbids them all, a schema
      must be satisfied by them all, `true` admits them. */
  lemma {:induction false} AdditionalLaw(doc: Json, v: Json, value: Json, fuel: nat)
    ensures Meets(doc, "additionalProperties", v, value, fuel)
       <==> (value.Object? && v != Bool(true) ==>
               forall m :: m in value.members ==> v != Bool(false) && Sat(doc, v, m.value, fuel))
  {
    OnlyObject(doc, "additionalProperties", v, value, fuel);
    OnlyGet("additionalProperties", v, "required");
    OnlyGet("additionalProperties", v, "properties");
    OnlyGet("additionalProperties", v, "additionalProperties");
  }

  /** A schema that lists properties and closes the object to all others. */
  function Closing(properties: seq<Member>, additional: Json): seq<Member> {
    [Member("additionalProperties", additional), Member("properties", Object(properties))]
  }

  lemma {:induction false} ClosingGet(properties: seq<Member>, additional: Json, name: string)
    ensures Get(Closing(properties, additional), name)
         == if name == "additionalProperties" then Some(additional)
            else if name == "properties" then Some(Object(properties)) else None
  {
    OnlyGet("properties", Object(properties), name);
    assert Closing(properties, additional)[1..] == [Member("properties", Object(properties))];
  }

  /** Beside `properties`, `additionalProperties` speaks of the members that are not listed. */
  lemma BesidePropertiesLaw(properties: seq<Member>, additional: Json, members: seq<Member>, sat: Oracle)
    requires KeysOnce(properties)
    ensures AdditionalHolds(Closing(properties, additional), members, sat)
       <==> (additional != Bool(true) ==>
               forall m :: m in members && !Named(properties, m.name) ==>
                 additional != Bool(false) && sat(additional, m.value))
  {
    ClosingGet(properties, additional, "additionalProperties");
    ClosingGet(properties, additional, "properties");
    forall name ensures Declared(Closing(properties, additional), name) <==> Named(properties, name) {
      GetIsMember(properties, name);
    }
  }

  // ----------------------------------------------------------------------------- arrays

  lemma {:induction false} OnlyArray(doc: Json, keyword: string, v: Json, value: Json, fuel: nat)
    requires keyword in ["items", "minItems", "maxItems", "uniqueItems"]
    ensures Meets(doc, keyword, v, value, fuel) <==> ArrayHolds([Member(keyword, v)], value, SatWith(doc, fuel))
  {
    var sat := SatWith(doc, fuel);
    NoReference(doc, keyword, v, value, sat);
    NoScalars(keyword, v, value);
    NoBounds(keyword, v, value);
    NoObject(keyword, v, value, sat);
    NoComposition(keyword, v, value, sat);
    OnlyGet(keyword, v, "items");
    OnlyGet(keyword, v, "minItems");
    OnlyGet(keyword, v, "maxItems");
    OnlyGet(keyword, v, "uniqueItems");
  }

  /** `items` demands its schema of every item. */
  lemma {:induction false} ItemsLaw(doc: Json, v: Json, value: Json, fuel: nat)
    ensures Meets(doc, "items", v, value, fuel)
       <==> (value.Array? ==> forall item :: item in value.items ==> Sat(doc, v, item, fuel))
  {
    OnlyArray(doc, "items", v, value, fuel);
    OnlyGet("items", v, "items");
    OnlyGet("items", v, "minItems");
    OnlyGet("items", v, "maxItems");
    OnlyGet("items", v, "uniqueItems");
  }

  /** `uniqueItems`, when it is `true`, demands that no item occurs twice. */
  lemma UniqueLaw(doc: Json, v: Json, value: Json, fuel: nat)
    ensures Meets(doc, "uniqueItems", v, value, fuel)
       <==> (value.Array? && v == Bool(true) ==>
               forall i, j :: 0 <= i < j < |value.items| ==> value.items[i] != value.items[j])
  {
    OnlyArray(doc, "uniqueItems", v, value, fuel);
    OnlyGet("uniqueItems", v, "items");
    OnlyGet("uniqueItems", v, "minItems");
    OnlyGet("uniqueItems", v, "maxItems");
    OnlyGet("uniqueItems", v, "uniqueItems");
  }

  /** The item bounds count, and only where the bound is a natural number. */
  lemma CountLaw(doc: Json, v: Json, value: Json, fuel: nat)
    ensures Meets(doc, "minItems", v, value, fuel)
       <==> (value.Array? && IsSize(v) ==> v.number.whole <= |value.items|)
    ensures Meets(doc, "maxItems", v, value, fuel)
       <==> (value.Array? && IsSize(v) ==> |value.items| <= v.number.whole)
  {
    OnlyArray(doc, "minItems", v, value, fuel);
    OnlyArray(doc, "maxItems", v, value, fuel);
    OnlyGet("minItems", v, "items");
    OnlyGet("minItems", v, "minItems");
    OnlyGet("minItems", v, "maxItems");
    OnlyGet("minItems", v, "uniqueItems");
    OnlyGet("maxItems", v, "items");
    OnlyGet("maxItems", v, "minItems");
    OnlyGet("maxItems", v, "maxItems");
    OnlyGet("maxItems", v, "uniqueItems");
  }

  // ------------------------------------------------------------------------ composition

  lemma {:induction false} OnlyComposition(doc: Json, keyword: string, v: Json, value: Json, fuel: nat)
    requires keyword in ["anyOf", "oneOf", "allOf", "not"]
    ensures Meets(doc, keyword, v, value, fuel) <==> CompositionHolds([Member(keyword, v)], value, SatWith(doc, fuel))
  {
    var sat := SatWith(doc, fuel);
    NoReference(doc, keyword, v, value, sat);
    NoScalars(keyword, v, value);
    NoBounds(keyword, v, value);
    NoObject(keyword, v, value, sat);
    NoArray(keyword, v, value, sat);
  }

  lemma BranchKeyword(keyword: string, v: Json, value: Json, sat: Oracle)
    requires keyword in ["anyOf", "oneOf", "allOf", "not"]
    ensures CompositionHolds([Member(keyword, v)], value, sat)
       <==> && (keyword == "anyOf" && v.Array? ==> SomeHolds(v.items, value, sat))
            && (keyword == "oneOf" && v.Array? ==> OneHolds(v.items, value, sat))
            && (keyword == "allOf" && v.Array? ==> AllHold(v.items, value, sat))
            && (keyword == "not" ==> !sat(v, value))
  {
    OnlyGet(keyword, v, "anyOf");
    OnlyGet(keyword, v, "oneOf");
    OnlyGet(keyword, v, "allOf");
    OnlyGet(keyword, v, "not");
  }

  /** `anyOf` demands some branch. */
  lemma {:induction false} AnyOfLaw(doc: Json, v: Json, value: Json, fuel: nat)
    ensures Meets(doc, "anyOf", v, value, fuel)
       <==> (v.Array? ==> exists b :: b in v.items && Sat(doc, b, value, fuel))
  {
    OnlyComposition(doc, "anyOf", v, value, fuel);
    BranchKeyword("anyOf", v, value, SatWith(doc, fuel));
  }

  /** `allOf` demands every branch. */
  lemma {:induction false} AllOfLaw(doc: Json, v: Json, value: Json, fuel: nat)
    ensures Meets(doc, "allOf", v, value, fuel)
       <==> (v.Array? ==> forall b :: b in v.items ==> Sat(doc, b, value, fuel))
  {
    OnlyComposition(doc, "allOf", v, value, fuel);
    BranchKeyword("allOf", v, value, SatWith(doc, fuel));
  }

  /** `not` demands that its schema fails. */
  lemma {:induction false} NotLaw(doc: Json, v: Json, value: Json, fuel: nat)
    ensures Meets(doc, "not", v, value, fuel) <==> !Sat(doc, v, value, fuel)
  {
    OnlyComposition(doc, "not", v, value, fuel);
    BranchKeyword("not", v, value, SatWith(doc, fuel));
  }

  /** `oneOf` demands exactly one branch, counted by position. */
  lemma {:induction false} OneOfLaw(doc: Json, v: Json, value: Json, fuel: nat)
    requires v.Array?
    ensures Meets(doc, "oneOf", v, value, fuel)
       <==> && (exists b :: b in v.items && Sat(doc, b, value, fuel))
            && (forall i, j :: 0 <= i < j < |v.items| ==>
                  !(Sat(doc, v.items[i], value, fuel) && Sat(doc, v.items[j], value, fuel)))
  {
    OnlyComposition(doc, "oneOf", v, value, fuel);
    BranchKeyword("oneOf", v, value, SatWith(doc, fuel));
    OneIsNoTwo(v.items, value, SatWith(doc, fuel));
  }

  lemma OneIsNoTwo(branches: seq<Json>, value: Json, sat: Oracle)
    ensures OneHolds(branches, value, sat)
       <==> && (exists b :: b in branches && sat(b, value))
            && (forall i, j :: 0 <= i < j < |branches| ==> !(sat(branches[i], value) && sat(branches[j], value)))
  {
    if OneHolds(branches, value, sat) {
      var i :| OnlyHolds(branches, value, sat, i);
      assert branches[i] in branches;
    } else if b :| b in branches && sat(b, value) {
      var i :| 0 <= i < |branches| && branches[i] == b;
      assert !OnlyHolds(branches, value, sat, i);
    }
  }

  /** A reference demands what the definition of that name demands; one that names no
      definition of the document admits nothing. */
  lemma {:induction false} ReferenceLaw(doc: Json, name: string, value: Json, fuel: nat)
    ensures var definitions := if doc.Object? then GetObject(doc.members, "$defs") else None;
            var target := if definitions.Some? then Get(definitions.value, name) else None;
            Meets(doc, "$ref", Text("#/$defs/" + name), value, fuel)
            <==> target.Some? && Sat(doc, target.value, value, fuel)
  {
    var v, sat := Text("#/$defs/" + name), SatWith(doc, fuel);
    assert ("#/$defs/" + name)[|"#/$defs/"|..] == name;
    OnlyGet("$ref", v, "$ref");
    NoScalars("$ref", v, value);
    NoBounds("$ref", v, value);
    NoObject("$ref", v, value, sat);
    NoArray("$ref", v, value, sat);
    NoComposition("$ref", v, value, sat);
  }

  // --------------------------------------------------- every enforced keyword is enforced

  /** The loader takes the schema made of the keyword, and the validator refuses the value. */
  ghost predicate Refuses(keyword: string, v: Json, value: Json) {
    Load(Only(keyword, v)).Success? && !Meets(Only(keyword, v), keyword, v, value, 64)
  }

  /** A refusal is enough for the keyword to be `enforced`. */
  ghost predicate Shows(enforced: string -> bool) {
    forall keyword, v, value :: Refuses(keyword, v, value) ==> enforced(keyword)
  }

  function Sized(whole: JsonInt): Json {
    Number(Int(whole))
  }

  lemma {:induction false} Refused(keyword: string, v: Json, value: Json, enforced: string -> bool)
    requires Shows(enforced) && CheckKeyword(Member(keyword, v)).Success?
    requires !Meets(Only(keyword, v), keyword, v, value, 64)
    ensures enforced(keyword)
  {
    assert [Member(keyword, v)][1..] == [];
    assert CheckKeywords([]) == Success(());
    assert CheckKeywords([Member(keyword, v)]) == Success(());
    assert Refuses(keyword, v, value);
  }

  lemma {:induction false} TypeBites(enforced: string -> bool)
    requires Shows(enforced)
    ensures enforced("type")
  {
    var v, value := Text("null"), Bool(true);
    var doc := Only("type", v);
    TypeLaw(doc, v, value, 64);
    Refused("type", v, value, enforced);
  }

  lemma {:induction false} EnumBites(enforced: string -> bool)
    requires Shows(enforced)
    ensures enforced("enum")
  {
    var v, value := Array([]), Null;
    var doc := Only("enum", v);
    EnumLaw(doc, v, value, 64);
    Refused("enum", v, value, enforced);
  }

  lemma {:induction false} ConstBites(enforced: string -> bool)
    requires Shows(enforced)
    ensures enforced("const")
  {
    var v, value := Null, Bool(true);
    var doc := Only("const", v);
    ConstLaw(doc, v, value, 64);
    Refused("const", v, value, enforced);
  }

  lemma {:induction false} MinLengthBites(enforced: string -> bool)
    requires Shows(enforced)
    ensures enforced("minLength")
  {
    var v, value := Sized(1), Text("");
    var doc := Only("minLength", v);
    LengthLaw(doc, v, value, 64);
    Refused("minLength", v, value, enforced);
  }

  lemma {:induction false} MaxLengthBites(enforced: string -> bool)
    requires Shows(enforced)
    ensures enforced("maxLength")
  {
    var v, value := Sized(0), Text("a");
    var doc := Only("maxLength", v);
    LengthLaw(doc, v, value, 64);
    Refused("maxLength", v, value, enforced);
  }

  lemma {:induction false} RequiredBites(enforced: string -> bool)
    requires Shows(enforced)
    ensures enforced("required")
  {
    var v, value := Array([Text("a")]), Object([]);
    var doc := Only("required", v);
    RequiredLaw(doc, v, value, 64);
    assert Text("a") in v.items;
    Refused("required", v, value, enforced);
  }

  lemma {:induction false} PropertiesBites(enforced: string -> bool)
    requires Shows(enforced)
    ensures enforced("properties")
  {
    var v, value := Object([Member("a", Bool(false))]), Object([Member("a", Null)]);
    var doc := Only("properties", v);
    assert v.members[1..] == [] && CheckNamed([]) == Success(()) && CheckNamed(v.members) == Success(());
    PropertiesLaw(doc, v, value, 64);
    assert Member("a", Bool(false)) in v.members && Member("a", Null) in value.members;
    Refused("properties", v, value, enforced);
  }

  lemma {:induction false} AdditionalBites(enforced: string -> bool)
    requires Shows(enforced)
    ensures enforced("additionalProperties")
  {
    var v, value := Bool(false), Object([Member("a", Null)]);
    var doc := Only("additionalProperties", v);
    AdditionalLaw(doc, v, value, 64);
    assert Member("a", Null) in value.members;
    Refused("additionalProperties", v, value, enforced);
  }

  lemma {:induction false} ItemsBites(enforced: string -> bool)
    requires Shows(enforced)
    ensures enforced("items")
  {
    var v, value := Bool(false), Array([Null]);
    var doc := Only("items", v);
    ItemsLaw(doc, v, value, 64);
    assert Null in value.items;
    Refused("items", v, value, enforced);
  }

  lemma {:induction false} MinItemsBites(enforced: string -> bool)
    requires Shows(enforced)
    ensures enforced("minItems")
  {
    var v, value := Sized(1), Array([]);
    var doc := Only("minItems", v);
    CountLaw(doc, v, value, 64);
    Refused("minItems", v, value, enforced);
  }

  lemma {:induction false} MaxItemsBites(enforced: string -> bool)
    requires Shows(enforced)
    ensures enforced("maxItems")
  {
    var v, value := Sized(0), Array([Null]);
    var doc := Only("maxItems", v);
    CountLaw(doc, v, value, 64);
    Refused("maxItems", v, value, enforced);
  }

  lemma {:induction false} UniqueItemsBites(enforced: string -> bool)
    requires Shows(enforced)
    ensures enforced("uniqueItems")
  {
    var v, value := Bool(true), Array([Null, Null]);
    var doc := Only("uniqueItems", v);
    UniqueLaw(doc, v, value, 64);
    assert value.items[0] == value.items[1];
    Refused("uniqueItems", v, value, enforced);
  }

  lemma {:induction false} AnyOfBites(enforced: string -> bool)
    requires Shows(enforced)
    ensures enforced("anyOf")
  {
    var v, value := Array([]), Null;
    var doc := Only("anyOf", v);
    assert CheckBranches([]) == Success(());
    AnyOfLaw(doc, v, value, 64);
    Refused("anyOf", v, value, enforced);
  }

  lemma {:induction false} OneOfBites(enforced: string -> bool)
    requires Shows(enforced)
    ensures enforced("oneOf")
  {
    var v, value := Array([]), Null;
    var doc := Only("oneOf", v);
    assert CheckBranches([]) == Success(());
    OneOfLaw(doc, v, value, 64);
    Refused("oneOf", v, value, enforced);
  }

  lemma {:induction false} AllOfBites(enforced: string -> bool)
    requires Shows(enforced)
    ensures enforced("allOf")
  {
    var v, value := Array([Bool(false)]), Null;
    var doc := Only("allOf", v);
    assert v.items[1..] == [] && CheckBranches([]) == Success(()) && CheckBranches(v.items) == Success(());
    AllOfLaw(doc, v, value, 64);
    assert Bool(false) in v.items;
    Refused("allOf", v, value, enforced);
  }

  lemma {:induction false} NotBites(enforced: string -> bool)
    requires Shows(enforced)
    ensures enforced("not")
  {
    var v, value := Bool(true), Null;
    var doc := Only("not", v);
    NotLaw(doc, v, value, 64);
    Refused("not", v, value, enforced);
  }

  lemma {:induction false} BoundBites(keyword: string, enforced: string -> bool)
    requires Shows(enforced) && keyword in ["minimum", "maximum", "exclusiveMinimum", "exclusiveMaximum"]
    ensures enforced(keyword)
  {
    var v, value := Number(Float(0.0)), Number(Float(if keyword in ["maximum", "exclusiveMaximum"] then 1.0 else -1.0));
    BoundLaw(Only(keyword, v), keyword, v, value, 64);
    Refused(keyword, v, value, enforced);
  }

  lemma {:induction false} ReferenceBites(enforced: string -> bool)
    requires Shows(enforced)
    ensures enforced("$ref")
  {
    var v := Text("#/$defs/" + "a");
    ReferenceLaw(Only("$ref", v), "a", Null, 64);
    OnlyGet("$ref", v, "$defs");
    Refused("$ref", v, Null, enforced);
  }

  lemma KeywordBites(i: nat, enforced: string -> bool)
    requires Shows(enforced) && i < |ENFORCED|
    ensures enforced(ENFORCED[i])
  {
    match i
    case 0 => ReferenceBites(enforced);
    case 1 => TypeBites(enforced);
    case 2 => EnumBites(enforced);
    case 3 => ConstBites(enforced);
    case 4 => RequiredBites(enforced);
    case 5 => PropertiesBites(enforced);
    case 6 => AdditionalBites(enforced);
    case 7 => ItemsBites(enforced);
    case 8 => BoundBites(ENFORCED[i], enforced);
    case 9 => BoundBites(ENFORCED[i], enforced);
    case 10 => BoundBites(ENFORCED[i], enforced);
    case 11 => BoundBites(ENFORCED[i], enforced);
    case 12 => MinLengthBites(enforced);
    case 13 => MaxLengthBites(enforced);
    case 14 => MinItemsBites(enforced);
    case 15 => MaxItemsBites(enforced);
    case 16 => UniqueItemsBites(enforced);
    case 17 => AnyOfBites(enforced);
    case 18 => OneOfBites(enforced);
    case 19 => AllOfBites(enforced);
    case 20 => NotBites(enforced);
  }

  /** The loader fails closed on keywords too: each keyword that it counts as enforced has a
      loadable schema, made of it alone, and a value which that schema refuses. */
  lemma EnforcedKeywordsBite(keyword: string)
    requires keyword in ENFORCED
    ensures exists v, value :: Refuses(keyword, v, value)
  {
    var i: nat :| i < |ENFORCED| && ENFORCED[i] == keyword;
    KeywordBites(i, name => exists v, value :: Refuses(name, v, value));
  }

  /** And a keyword that it counts as an annotation refuses nothing. */
  lemma {:induction false} AnnotationsAdmit(doc: Json, keyword: string, v: Json, value: Json, fuel: nat)
    requires keyword in METADATA
    ensures Meets(doc, keyword, v, value, fuel)
  {
    OnlyScalar(doc, keyword, v, value, fuel);
    NoScalars(keyword, v, value);
  }

  /** What the loader refuses, and how it names it. */
  lemma {:induction false} LoaderLaw(keyword: string, v: Json)
    ensures !v.Object? ==> Load(v) == Failure(RootNotAnObject)
    ensures !v.Object? && !v.Bool? ==> CheckSupported(v) == Failure(NotASchema)
    ensures keyword !in ENFORCED && keyword !in METADATA ==> Load(Only(keyword, v)) == Failure(Unsupported(keyword))
    ensures keyword in ["properties", "$defs"] && !v.Object? ==>
              Load(Only(keyword, v)) == Failure(NotAnObjectOfSchemas(keyword))
    ensures keyword in ["anyOf", "oneOf", "allOf"] && !v.Array? ==>
              Load(Only(keyword, v)) == Failure(NotAnArrayOfSchemas(keyword))
  {
    assert [Member(keyword, v)][1..] == [];
    assert CheckKeywords([]) == Success(());
    var checked := CheckKeyword(Member(keyword, v));
    assert CheckKeywords([Member(keyword, v)]) == if checked.Failure? then checked else Success(());
  }
}
