/** What the validator says of each failure: the report on a schema made of one keyword. */
module SchemaProblems {
  import opened JsonSchema
  import opened SchemaReport
  import opened SchemaKeywords

  ghost function Reported(doc: Json, keyword: string, v: Json, value: Json, path: string, depth: nat): seq<Violation> {
    Violations(doc, Site(Only(keyword, v), value, path), depth)
  }

  lemma {:induction false} QuietReference(doc: Json, keyword: string, v: Json, value: Json, path: string, depth: nat)
    requires depth <= MAX_DEPTH && keyword != "$ref"
    ensures ReferenceReport(doc, [Member(keyword, v)], value, path, depth) == []
  {
    OnlyGet(keyword, v, "$ref");
  }

  lemma QuietScalars(keyword: string, v: Json, value: Json, path: string)
    requires keyword !in ["enum", "const", "minLength", "maxLength"] && keyword !in BOUNDS
    ensures ScalarReport([Member(keyword, v)], value, path) == []
  {
    NoScalars(keyword, v, value);
    NoBounds(keyword, v, value);
    ScalarEmpty([Member(keyword, v)], value, path);
  }

  lemma {:induction false} QuietObject(doc: Json, keyword: string, v: Json, value: Json, path: string, depth: nat)
    requires depth <= MAX_DEPTH && keyword !in ["required", "properties", "additionalProperties"]
    ensures ObjectReport(doc, [Member(keyword, v)], value, path, depth) == []
  {
    var sat := SatWith(doc, Fuel(depth + 1));
    SatJudges(doc, depth, Fuel(depth + 1));
    NoObject(keyword, v, value, sat);
    ObjectEmpty(doc, [Member(keyword, v)], value, path, depth, sat);
  }

  lemma {:induction false} QuietArray(doc: Json, keyword: string, v: Json, value: Json, path: string, depth: nat)
    requires depth <= MAX_DEPTH && keyword !in ["items", "minItems", "maxItems", "uniqueItems"]
    ensures ArrayReport(doc, [Member(keyword, v)], value, path, depth) == []
  {
    var sat := SatWith(doc, Fuel(depth + 1));
    SatJudges(doc, depth, Fuel(depth + 1));
    NoArray(keyword, v, value, sat);
    ArrayEmpty(doc, [Member(keyword, v)], value, path, depth, sat);
  }

  lemma {:induction false} QuietComposition(doc: Json, keyword: string, v: Json, value: Json, path: string, depth: nat)
    requires depth <= MAX_DEPTH && keyword !in ["anyOf", "oneOf", "allOf", "not"]
    ensures CompositionReport(doc, [Member(keyword, v)], value, path, depth) == []
  {
    var sat := SatWith(doc, Fuel(depth + 1));
    SatJudges(doc, depth, Fuel(depth + 1));
    NoComposition(keyword, v, value, sat);
    CompositionEmpty(doc, [Member(keyword, v)], value, path, depth, sat);
  }

  /** The report of one keyword that is neither a reference nor a type. */
  lemma {:induction false} OneReport(doc: Json, keyword: string, v: Json, value: Json, path: string, depth: nat)
    requires depth <= MAX_DEPTH && keyword != "$ref" && keyword != "type"
    ensures Reported(doc, keyword, v, value, path, depth)
         == TypedReport(doc, [Member(keyword, v)], value, path, depth)
  {
    QuietReference(doc, keyword, v, value, path, depth);
    NoScalars(keyword, v, value);
  }

  lemma Alone<T>(x: seq<T>)
    ensures x + [] + [] + [] == x && [] + x + [] + [] == x && [] + [] + x + [] == x && [] + [] + [] + x == x
    ensures x + [] == x && [] + x == x
  {
  }

  lemma {:induction false} OneScalarReport(doc: Json, keyword: string, v: Json, value: Json, path: string, depth: nat)
    requires depth <= MAX_DEPTH && keyword != "$ref" && keyword != "type"
    requires keyword !in ["required", "properties", "additionalProperties"]
    requires keyword !in ["items", "minItems", "maxItems", "uniqueItems"]
    requires keyword !in ["anyOf", "oneOf", "allOf", "not"]
    ensures Reported(doc, keyword, v, value, path, depth) == ScalarReport([Member(keyword, v)], value, path)
  {
    OneReport(doc, keyword, v, value, path, depth);
    QuietObject(doc, keyword, v, value, path, depth);
    QuietArray(doc, keyword, v, value, path, depth);
    QuietComposition(doc, keyword, v, value, path, depth);
    Alone(ScalarReport([Member(keyword, v)], value, path));
  }

  lemma QuietLengths(keyword: string, v: Json, value: Json, path: string)
    ensures keyword !in ["minLength", "maxLength"] ==> StringOwn([Member(keyword, v)], value, path) == []
    ensures keyword !in BOUNDS ==> NumberOwn([Member(keyword, v)], value, path) == []
    ensures keyword !in ["enum", "const"] ==> ConstantsOwn([Member(keyword, v)], value, path) == []
  {
    NoScalars(keyword, v, value);
    if keyword !in BOUNDS {
      NoBounds(keyword, v, value);
    }
    ScalarEmpty([Member(keyword, v)], value, path);
  }

  lemma {:induction false} OneConstantReport(doc: Json, keyword: string, v: Json, value: Json, path: string,
                                             depth: nat)
    requires depth <= MAX_DEPTH && keyword in ["enum", "const"]
    ensures Reported(doc, keyword, v, value, path, depth) == ConstantsOwn([Member(keyword, v)], value, path)
  {
    OneScalarReport(doc, keyword, v, value, path, depth);
    QuietLengths(keyword, v, value, path);
    Alone(ConstantsOwn([Member(keyword, v)], value, path));
  }

  lemma {:induction false} OneLengthReport(doc: Json, keyword: string, v: Json, value: Json, path: string, depth: nat)
    requires depth <= MAX_DEPTH && keyword in ["minLength", "maxLength"]
    ensures Reported(doc, keyword, v, value, path, depth) == StringOwn([Member(keyword, v)], value, path)
  {
    OneScalarReport(doc, keyword, v, value, path, depth);
    QuietLengths(keyword, v, value, path);
    Alone(StringOwn([Member(keyword, v)], value, path));
  }

  lemma EnumOnly(v: Json, value: Json, path: string)
    ensures ConstantsOwn([Member("enum", v)], value, path)
         == if v.Array? && value !in v.items then [Violation(path, NotInEnum)] else []
  {
    OnlyGet("enum", v, "enum");
    OnlyGet("enum", v, "const");
  }

  lemma ConstOnly(v: Json, value: Json, path: string)
    ensures ConstantsOwn([Member("const", v)], value, path)
         == if value != v then [Violation(path, NotConst)] else []
  {
    OnlyGet("const", v, "enum");
    OnlyGet("const", v, "const");
  }

  lemma ShortOnly(v: Json, value: Json, path: string)
    ensures StringOwn([Member("minLength", v)], value, path)
         == if value.Text? && IsSize(v) && |value.text| < v.number.whole
            then [Violation(path, TooShort(v.number.whole))] else []
  {
    OnlyGet("minLength", v, "minLength");
    OnlyGet("minLength", v, "maxLength");
  }

  lemma LongOnly(v: Json, value: Json, path: string)
    ensures StringOwn([Member("maxLength", v)], value, path)
         == if value.Text? && IsSize(v) && v.number.whole < |value.text|
            then [Violation(path, TooLong(v.number.whole))] else []
  {
    OnlyGet("maxLength", v, "minLength");
    OnlyGet("maxLength", v, "maxLength");
  }

  /** A value that is not listed, or not the constant, is reported once, where it lies. */
  lemma EnumReport(doc: Json, v: Json, value: Json, path: string, depth: nat)
    requires depth <= MAX_DEPTH
    ensures Reported(doc, "enum", v, value, path, depth)
         == if v.Array? && value !in v.items then [Violation(path, NotInEnum)] else []
  {
    OneConstantReport(doc, "enum", v, value, path, depth);
    EnumOnly(v, value, path);
  }

  lemma ConstReport(doc: Json, v: Json, value: Json, path: string, depth: nat)
    requires depth <= MAX_DEPTH
    ensures Reported(doc, "const", v, value, path, depth)
         == if value != v then [Violation(path, NotConst)] else []
  {
    OneConstantReport(doc, "const", v, value, path, depth);
    ConstOnly(v, value, path);
  }

  /** A text that is too short or too long is reported with the bound. */
  lemma ShortReport(doc: Json, v: Json, value: Json, path: string, depth: nat)
    requires depth <= MAX_DEPTH
    ensures Reported(doc, "minLength", v, value, path, depth)
         == if value.Text? && IsSize(v) && |value.text| < v.number.whole
            then [Violation(path, TooShort(v.number.whole))] else []
  {
    OneLengthReport(doc, "minLength", v, value, path, depth);
    ShortOnly(v, value, path);
  }

  lemma LongReport(doc: Json, v: Json, value: Json, path: string, depth: nat)
    requires depth <= MAX_DEPTH
    ensures Reported(doc, "maxLength", v, value, path, depth)
         == if value.Text? && IsSize(v) && v.number.whole < |value.text|
            then [Violation(path, TooLong(v.number.whole))] else []
  {
    OneLengthReport(doc, "maxLength", v, value, path, depth);
    LongOnly(v, value, path);
  }

  lemma BoundOnly(keyword: string, v: Json, value: Json, path: string)
    requires keyword in ["minimum", "maximum", "exclusiveMinimum", "exclusiveMaximum"]
    ensures NumberOwn([Member(keyword, v)], value, path)
         == if value.Number? && v.Number? && !Within(keyword, AsFloat(v.number), AsFloat(value.number))
            then [Violation(path, OutOfBounds(keyword))] else []
  {
    OnlyGet(keyword, v, "minimum");
    OnlyGet(keyword, v, "maximum");
    OnlyGet(keyword, v, "exclusiveMinimum");
    OnlyGet(keyword, v, "exclusiveMaximum");
  }

  /** A number out of bounds is reported with the keyword. */
  lemma BoundReport(doc: Json, keyword: string, v: Json, value: Json, path: string, depth: nat)
    requires depth <= MAX_DEPTH && keyword in ["minimum", "maximum", "exclusiveMinimum", "exclusiveMaximum"]
    ensures Reported(doc, keyword, v, value, path, depth)
         == if value.Number? && v.Number? && !Within(keyword, AsFloat(v.number), AsFloat(value.number))
            then [Violation(path, OutOfBounds(keyword))] else []
  {
    OneNumberReport(doc, keyword, v, value, path, depth);
    BoundOnly(keyword, v, value, path);
  }

  lemma {:induction false} OneNumberReport(doc: Json, keyword: string, v: Json, value: Json, path: string, depth: nat)
    requires depth <= MAX_DEPTH && keyword in ["minimum", "maximum", "exclusiveMinimum", "exclusiveMaximum"]
    ensures Reported(doc, keyword, v, value, path, depth) == NumberOwn([Member(keyword, v)], value, path)
  {
    OneScalarReport(doc, keyword, v, value, path, depth);
    QuietLengths(keyword, v, value, path);
    Alone(NumberOwn([Member(keyword, v)], value, path));
  }

  lemma {:induction false} OneObjectReport(doc: Json, keyword: string, v: Json, value: Json, path: string, depth: nat)
    requires depth <= MAX_DEPTH && keyword != "$ref" && keyword != "type" && keyword !in BOUNDS
    requires keyword !in ["enum", "const", "minLength", "maxLength"]
    requires keyword !in ["items", "minItems", "maxItems", "uniqueItems"]
    requires keyword !in ["anyOf", "oneOf", "allOf", "not"]
    ensures Reported(doc, keyword, v, value, path, depth)
         == ObjectReport(doc, [Member(keyword, v)], value, path, depth)
  {
    OneReport(doc, keyword, v, value, path, depth);
    QuietScalars(keyword, v, value, path);
    QuietArray(doc, keyword, v, value, path, depth);
    QuietComposition(doc, keyword, v, value, path, depth);
    Alone(ObjectReport(doc, [Member(keyword, v)], value, path, depth));
  }

  lemma {:induction false} RequiredOnly(doc: Json, required: seq<Json>, members: seq<Member>, path: string, depth: nat)
    requires depth <= MAX_DEPTH
    ensures ObjectReport(doc, [Member("required", Array(required))], Object(members), path, depth)
         == MissingOwn(required, members, path)
  {
    var s := [Member("required", Array(required))];
    ObjectForm(doc, s, Object(members), path, depth);
    OnlyGet("required", Array(required), "required");
    OnlyGet("required", Array(required), "properties");
    OnlyGet("required", Array(required), "additionalProperties");
    Alone(MissingOwn(required, members, path));
  }

  /** A missing property is reported by name. */
  lemma {:induction false} MissingReport(doc: Json, name: string, members: seq<Member>, path: string, depth: nat)
    requires depth <= MAX_DEPTH && KeysOnce(members)
    ensures Reported(doc, "required", Array([Text(name)]), Object(members), path, depth)
         == if Named(members, name) then [] else [Violation(path, Missing(name))]
  {
    OneObjectReport(doc, "required", Array([Text(name)]), Object(members), path, depth);
    RequiredOnly(doc, [Text(name)], members, path, depth);
    MissingOne(name, members, path);
  }

  lemma {:induction false} MissingOne(name: string, members: seq<Member>, path: string)
    requires KeysOnce(members)
    ensures MissingOwn([Text(name)], members, path) == When(!Named(members, name), path, Missing(name))
  {
    GetIsMember(members, name);
    assert [Text(name)][..0] == [];
    assert MissingOwn([Text(name)], members, path)
        == MissingOwn([], members, path) + When(!Has(members, name), path, Missing(name));
  }

  /** A forbidden property is reported by name, where the object lies; the report on a property
      lies at its name. */
  lemma {:induction false} PropertyReport(doc: Json, sub: Json, m: Member, path: string, depth: nat)
    requires depth <= MAX_DEPTH
    ensures Reported(doc, "additionalProperties", Bool(false), Object([m]), path, depth)
         == [Violation(path, Unexpected(m.name))]
    ensures Reported(doc, "properties", Object([Member(m.name, sub)]), Object([m]), path, depth)
         == Violations(doc, Site(sub, m.value, path + "." + m.name), depth + 1)
  {
    ForbiddenReport(doc, m, path, depth);
    ListedReport(doc, sub, m, path, depth);
  }

  lemma {:induction false} ForbiddenReport(doc: Json, m: Member, path: string, depth: nat)
    requires depth <= MAX_DEPTH
    ensures Reported(doc, "additionalProperties", Bool(false), Object([m]), path, depth)
         == [Violation(path, Unexpected(m.name))]
  {
    OneObjectReport(doc, "additionalProperties", Bool(false), Object([m]), path, depth);
    ForbiddenOnly(doc, m, path, depth);
  }

  lemma {:induction false} ForbiddenOnly(doc: Json, m: Member, path: string, depth: nat)
    requires depth <= MAX_DEPTH
    ensures ObjectReport(doc, [Member("additionalProperties", Bool(false))], Object([m]), path, depth)
         == [Violation(path, Unexpected(m.name))]
  {
    var v, s := Bool(false), [Member("additionalProperties", Bool(false))];
    ObjectForm(doc, s, Object([m]), path, depth);
    OnlyGet("additionalProperties", v, "required");
    OnlyGet("additionalProperties", v, "properties");
    OnlyGet("additionalProperties", v, "additionalProperties");
    assert [m][..0] == [];
    assert UnexpectedOwn(s, [m], path)
        == UnexpectedOwn(s, [], path) + When(!Declared(s, m.name), path, Unexpected(m.name));
  }

  lemma {:induction false} ListedReport(doc: Json, sub: Json, m: Member, path: string, depth: nat)
    requires depth <= MAX_DEPTH
    ensures Reported(doc, "properties", Object([Member(m.name, sub)]), Object([m]), path, depth)
         == Violations(doc, Site(sub, m.value, path + "." + m.name), depth + 1)
  {
    OneObjectReport(doc, "properties", Object([Member(m.name, sub)]), Object([m]), path, depth);
    ListedOnly(doc, sub, m, path, depth);
    SchemaReport.OneReport(doc, Site(sub, m.value, path + "." + m.name), depth + 1);
  }

  lemma {:induction false} ListedOnly(doc: Json, sub: Json, m: Member, path: string, depth: nat)
    requires depth <= MAX_DEPTH
    ensures ObjectReport(doc, [Member("properties", Object([Member(m.name, sub)]))], Object([m]), path, depth)
         == ReportAll(doc, [Site(sub, m.value, path + "." + m.name)], depth + 1)
  {
    var p, site := Member(m.name, sub), Site(sub, m.value, path + "." + m.name);
    ObjectForm(doc, [Member("properties", Object([p]))], Object([m]), path, depth);
    OnlyGet("properties", Object([p]), "required");
    OnlyGet("properties", Object([p]), "properties");
    OnlyGet("properties", Object([p]), "additionalProperties");
    OneSite(p, m, path);
    Alone(ReportAll(doc, [site], depth + 1));
  }

  lemma {:induction false} OneSite(p: Member, m: Member, path: string)
    requires p.name == m.name
    ensures PropertySites([p], [m], path) == [Site(p.value, m.value, path + "." + p.name)]
  {
    assert [p][..0] == [];
    assert PropertySites([p], [m], path) == [] + [Site(p.value, m.value, path + "." + p.name)];
  }

  lemma {:induction false} OneArrayReport(doc: Json, keyword: string, v: Json, value: Json, path: string, depth: nat)
    requires depth <= MAX_DEPTH && keyword != "$ref" && keyword != "type" && keyword !in BOUNDS
    requires keyword !in ["enum", "const", "minLength", "maxLength"]
    requires keyword !in ["required", "properties", "additionalProperties"]
    requires keyword !in ["anyOf", "oneOf", "allOf", "not"]
    ensures Reported(doc, keyword, v, value, path, depth)
         == ArrayReport(doc, [Member(keyword, v)], value, path, depth)
  {
    OneReport(doc, keyword, v, value, path, depth);
    QuietScalars(keyword, v, value, path);
    QuietObject(doc, keyword, v, value, path, depth);
    QuietComposition(doc, keyword, v, value, path, depth);
    Alone(ArrayReport(doc, [Member(keyword, v)], value, path, depth));
  }

  lemma FewOnly(v: Json, items: seq<Json>, path: string)
    ensures CountsOwn([Member("minItems", v)], Array(items), path)
         == if IsSize(v) && |items| < v.number.whole then [Violation(path, TooFewItems(v.number.whole))] else []
  {
    OnlyGet("minItems", v, "minItems");
    OnlyGet("minItems", v, "maxItems");
    OnlyGet("minItems", v, "uniqueItems");
  }

  lemma ManyOnly(v: Json, items: seq<Json>, path: string)
    ensures CountsOwn([Member("maxItems", v)], Array(items), path)
         == if IsSize(v) && v.number.whole < |items| then [Violation(path, TooManyItems(v.number.whole))] else []
  {
    OnlyGet("maxItems", v, "minItems");
    OnlyGet("maxItems", v, "maxItems");
    OnlyGet("maxItems", v, "uniqueItems");
  }

  lemma {:induction false} RepeatOnly(v: Json, items: seq<Json>, path: string)
    ensures CountsOwn([Member("uniqueItems", v)], Array(items), path)
         == if v == Bool(true) && FirstRepeat(items) < |items|
            then [Violation(ItemPath(path, FirstRepeat(items)), Repeated)] else []
  {
    OnlyGet("uniqueItems", v, "minItems");
    OnlyGet("uniqueItems", v, "maxItems");
    OnlyGet("uniqueItems", v, "uniqueItems");
  }

  /** Too few items are reported with the bound, where the array lies. */
  lemma {:induction false} FewReport(doc: Json, v: Json, items: seq<Json>, path: string, depth: nat)
    requires depth <= MAX_DEPTH
    ensures Reported(doc, "minItems", v, Array(items), path, depth)
         == if IsSize(v) && |items| < v.number.whole then [Violation(path, TooFewItems(v.number.whole))] else []
  {
    OneArrayReport(doc, "minItems", v, Array(items), path, depth);
    ArrayForm(doc, [Member("minItems", v)], Array(items), path, depth);
    OnlyGet("minItems", v, "items");
    FewOnly(v, items, path);
    Alone(CountsOwn([Member("minItems", v)], Array(items), path));
  }

  lemma {:induction false} ManyReport(doc: Json, v: Json, items: seq<Json>, path: string, depth: nat)
    requires depth <= MAX_DEPTH
    ensures Reported(doc, "maxItems", v, Array(items), path, depth)
         == if IsSize(v) && v.number.whole < |items| then [Violation(path, TooManyItems(v.number.whole))] else []
  {
    OneArrayReport(doc, "maxItems", v, Array(items), path, depth);
    ArrayForm(doc, [Member("maxItems", v)], Array(items), path, depth);
    OnlyGet("maxItems", v, "items");
    ManyOnly(v, items, path);
    Alone(CountsOwn([Member("maxItems", v)], Array(items), path));
  }

  /** Repetition is reported once, at the first item that repeats an earlier one. */
  lemma {:induction false} RepeatReport(doc: Json, items: seq<Json>, i: nat, path: string, depth: nat)
    requires depth <= MAX_DEPTH && i < |items| && items[i] in items[..i] && Distinct(items[..i])
    ensures Reported(doc, "uniqueItems", Bool(true), Array(items), path, depth)
         == [Violation(ItemPath(path, i), Repeated)]
  {
    var s := [Member("uniqueItems", Bool(true))];
    OneArrayReport(doc, "uniqueItems", Bool(true), Array(items), path, depth);
    ArrayForm(doc, s, Array(items), path, depth);
    OnlyGet("uniqueItems", Bool(true), "items");
    RepeatOnly(Bool(true), items, path);
    OnlyFirstRepeat(items, i);
  }

  lemma {:induction false} OnlyFirstRepeat(items: seq<Json>, i: nat)
    requires i < |items| && items[i] in items[..i] && Distinct(items[..i])
    ensures FirstRepeat(items) == i
  {
    var first := FirstRepeat(items);
    FirstRepeatIs(items);
    if i < first {
      RepeatBefore(items, i, first);
    } else if first < i {
      RepeatBefore(items, first, i);
    }
  }

  lemma RepeatBefore(items: seq<Json>, i: nat, end: nat)
    requires i < end <= |items| && items[i] in items[..i]
    ensures !Distinct(items[..end])
  {
    var j :| 0 <= j < i && items[..i][j] == items[i];
    assert items[..end][j] == items[..end][i];
  }

  lemma {:induction false} OneCompositionReport(doc: Json, keyword: string, v: Json, value: Json, path: string,
                                                depth: nat)
    requires depth <= MAX_DEPTH && keyword != "$ref" && keyword != "type" && keyword !in BOUNDS
    requires keyword !in ["enum", "const", "minLength", "maxLength"]
    requires keyword !in ["required", "properties", "additionalProperties"]
    requires keyword !in ["items", "minItems", "maxItems", "uniqueItems"]
    ensures Reported(doc, keyword, v, value, path, depth)
         == CompositionReport(doc, [Member(keyword, v)], value, path, depth)
  {
    OneReport(doc, keyword, v, value, path, depth);
    QuietScalars(keyword, v, value, path);
    QuietObject(doc, keyword, v, value, path, depth);
    QuietArray(doc, keyword, v, value, path, depth);
    Alone(CompositionReport(doc, [Member(keyword, v)], value, path, depth));
  }

  lemma {:induction false} NoAllOf(doc: Json, keyword: string, v: Json, value: Json, path: string, depth: nat)
    requires depth <= MAX_DEPTH && keyword != "allOf"
    ensures CompositionReport(doc, [Member(keyword, v)], value, path, depth)
         == ChoicesOwn(doc, [Member(keyword, v)], value, path, depth)
            + NotOwn(doc, [Member(keyword, v)], value, path, depth)
  {
    OnlyGet(keyword, v, "allOf");
    assert ReportAll(doc, [], depth + 1) == [];
    Alone(ChoicesOwn(doc, [Member(keyword, v)], value, path, depth));
  }

  lemma {:induction false} AnyOfOnly(doc: Json, v: Json, value: Json, path: string, depth: nat)
    requires depth <= MAX_DEPTH && v.Array?
    ensures ChoicesOwn(doc, [Member("anyOf", v)], value, path, depth)
         == if Passing(doc, v.items, value, path, depth) == 0 then [Violation(path, NoBranch)] else []
    ensures NotOwn(doc, [Member("anyOf", v)], value, path, depth) == []
  {
    OnlyGet("anyOf", v, "anyOf");
    OnlyGet("anyOf", v, "oneOf");
    OnlyGet("anyOf", v, "not");
  }

  lemma {:induction false} OneOfOnly(doc: Json, v: Json, value: Json, path: string, depth: nat)
    requires depth <= MAX_DEPTH && v.Array?
    ensures ChoicesOwn(doc, [Member("oneOf", v)], value, path, depth)
         == if Passing(doc, v.items, value, path, depth) == 1 then []
            else [Violation(path, NotOneBranch(Passing(doc, v.items, value, path, depth)))]
    ensures NotOwn(doc, [Member("oneOf", v)], value, path, depth) == []
  {
    OnlyGet("oneOf", v, "anyOf");
    OnlyGet("oneOf", v, "oneOf");
    OnlyGet("oneOf", v, "not");
  }

  lemma {:induction false} NotOnly(doc: Json, v: Json, value: Json, path: string, depth: nat)
    requires depth <= MAX_DEPTH
    ensures NotOwn(doc, [Member("not", v)], value, path, depth)
         == if Violations(doc, Site(v, value, path), depth + 1) == [] then [Violation(path, ForbiddenMatch)] else []
    ensures ChoicesOwn(doc, [Member("not", v)], value, path, depth) == []
  {
    OnlyGet("not", v, "anyOf");
    OnlyGet("not", v, "oneOf");
    OnlyGet("not", v, "not");
  }

  /** No passing branch of `anyOf`, a number other than one of `oneOf`, reported with that number,
      and a match of `not` are each reported once, where the value lies. */
  lemma {:induction false} AnyOfReport(doc: Json, v: Json, value: Json, path: string, depth: nat)
    requires depth <= MAX_DEPTH && v.Array?
    ensures Reported(doc, "anyOf", v, value, path, depth)
         == if Passing(doc, v.items, value, path, depth) == 0 then [Violation(path, NoBranch)] else []
  {
    OneCompositionReport(doc, "anyOf", v, value, path, depth);
    NoAllOf(doc, "anyOf", v, value, path, depth);
    AnyOfOnly(doc, v, value, path, depth);
    Alone(ChoicesOwn(doc, [Member("anyOf", v)], value, path, depth));
  }

  lemma {:induction false} OneOfReport(doc: Json, v: Json, value: Json, path: string, depth: nat)
    requires depth <= MAX_DEPTH && v.Array?
    ensures Reported(doc, "oneOf", v, value, path, depth)
         == if Passing(doc, v.items, value, path, depth) == 1 then []
            else [Violation(path, NotOneBranch(Passing(doc, v.items, value, path, depth)))]
  {
    OneCompositionReport(doc, "oneOf", v, value, path, depth);
    NoAllOf(doc, "oneOf", v, value, path, depth);
    OneOfOnly(doc, v, value, path, depth);
    Alone(ChoicesOwn(doc, [Member("oneOf", v)], value, path, depth));
  }

  lemma {:induction false} NotReport(doc: Json, v: Json, value: Json, path: string, depth: nat)
    requires depth <= MAX_DEPTH
    ensures Reported(doc, "not", v, value, path, depth)
         == if Violations(doc, Site(v, value, path), depth + 1) == [] then [Violation(path, ForbiddenMatch)] else []
  {
    OneCompositionReport(doc, "not", v, value, path, depth);
    NoAllOf(doc, "not", v, value, path, depth);
    NotOnly(doc, v, value, path, depth);
    Alone(NotOwn(doc, [Member("not", v)], value, path, depth));
  }

  /** A reference reports what its definition reports, in the same place, or that it names none. */
  lemma {:induction false} ReferencedReport(doc: Json, reference: string, value: Json, path: string, depth: nat)
    requires depth <= MAX_DEPTH
    ensures Reported(doc, "$ref", Text(reference), value, path, depth)
         == match Resolve(doc, reference)
            case None => [Violation(path, Unresolvable(reference))]
            case Some(target) => Violations(doc, Site(target, value, path), depth + 1)
  {
    OneReferenceReport(doc, Text(reference), value, path, depth);
    ReferenceOnly(doc, reference, value, path, depth);
  }

  lemma {:induction false} ReferenceOnly(doc: Json, reference: string, value: Json, path: string, depth: nat)
    requires depth <= MAX_DEPTH
    ensures ReferenceReport(doc, [Member("$ref", Text(reference))], value, path, depth)
         == match Resolve(doc, reference)
            case None => [Violation(path, Unresolvable(reference))]
            case Some(target) => Violations(doc, Site(target, value, path), depth + 1)
  {
    OnlyGet("$ref", Text(reference), "$ref");
    ReferenceForm(doc, [Member("$ref", Text(reference))], value, path, depth);
  }

  lemma {:induction false} QuietTyped(doc: Json, keyword: string, v: Json, value: Json, path: string, depth: nat)
    requires depth <= MAX_DEPTH && keyword !in BOUNDS && keyword !in ["enum", "const", "minLength", "maxLength"]
    requires keyword !in ["required", "properties", "additionalProperties"]
    requires keyword !in ["items", "minItems", "maxItems", "uniqueItems"]
    requires keyword !in ["anyOf", "oneOf", "allOf", "not"]
    ensures TypedReport(doc, [Member(keyword, v)], value, path, depth) == []
  {
    QuietScalars(keyword, v, value, path);
    QuietObject(doc, keyword, v, value, path, depth);
    QuietArray(doc, keyword, v, value, path, depth);
    QuietComposition(doc, keyword, v, value, path, depth);
  }

  lemma {:induction false} OneReferenceReport(doc: Json, v: Json, value: Json, path: string, depth: nat)
    requires depth <= MAX_DEPTH
    ensures Reported(doc, "$ref", v, value, path, depth)
         == ReferenceReport(doc, [Member("$ref", v)], value, path, depth)
  {
    QuietTyped(doc, "$ref", v, value, path, depth);
    NoScalars("$ref", v, value);
    Alone(ReferenceReport(doc, [Member("$ref", v)], value, path, depth));
  }

  /** An item is reported on at its index, an unlisted property at its name, a branch of `allOf`
      where the value lies. */
  lemma {:induction false} PartReport(doc: Json, sub: Json, m: Member, path: string, depth: nat)
    requires depth <= MAX_DEPTH
    ensures Reported(doc, "items", sub, Array([m.value]), path, depth)
         == Violations(doc, Site(sub, m.value, ItemPath(path, 0)), depth + 1)
    ensures !sub.Bool? ==>
              Reported(doc, "additionalProperties", sub, Object([m]), path, depth)
              == Violations(doc, Site(sub, m.value, path + "." + m.name), depth + 1)
    ensures Reported(doc, "allOf", Array([sub]), m.value, path, depth)
         == Violations(doc, Site(sub, m.value, path), depth + 1)
  {
    ItemReport(doc, sub, m.value, path, depth);
    if !sub.Bool? {
      OtherReport(doc, sub, m, path, depth);
    }
    AllOfReport(doc, sub, m.value, path, depth);
  }

  lemma {:induction false} ItemReport(doc: Json, sub: Json, item: Json, path: string, depth: nat)
    requires depth <= MAX_DEPTH
    ensures Reported(doc, "items", sub, Array([item]), path, depth)
         == Violations(doc, Site(sub, item, ItemPath(path, 0)), depth + 1)
  {
    OneArrayReport(doc, "items", sub, Array([item]), path, depth);
    ItemOnly(doc, sub, item, path, depth);
    SchemaReport.OneReport(doc, Site(sub, item, ItemPath(path, 0)), depth + 1);
  }

  lemma {:induction false} ItemOnly(doc: Json, sub: Json, item: Json, path: string, depth: nat)
    requires depth <= MAX_DEPTH
    ensures ArrayReport(doc, [Member("items", sub)], Array([item]), path, depth)
         == ReportAll(doc, [Site(sub, item, ItemPath(path, 0))], depth + 1)
  {
    ArrayForm(doc, [Member("items", sub)], Array([item]), path, depth);
    OnlyGet("items", sub, "items");
    OnlyGet("items", sub, "minItems");
    OnlyGet("items", sub, "maxItems");
    OnlyGet("items", sub, "uniqueItems");
    assert [item][..0] == [];
    assert ItemSites(sub, [item], path) == [] + [Site(sub, item, ItemPath(path, 0))];
    Alone(ReportAll(doc, [Site(sub, item, ItemPath(path, 0))], depth + 1));
  }

  lemma {:induction false} OtherReport(doc: Json, sub: Json, m: Member, path: string, depth: nat)
    requires depth <= MAX_DEPTH && !sub.Bool?
    ensures Reported(doc, "additionalProperties", sub, Object([m]), path, depth)
         == Violations(doc, Site(sub, m.value, path + "." + m.name), depth + 1)
  {
    OneObjectReport(doc, "additionalProperties", sub, Object([m]), path, depth);
    OtherOnly(doc, sub, m, path, depth);
    SchemaReport.OneReport(doc, Site(sub, m.value, path + "." + m.name), depth + 1);
  }

  lemma {:induction false} OtherOnly(doc: Json, sub: Json, m: Member, path: string, depth: nat)
    requires depth <= MAX_DEPTH && !sub.Bool?
    ensures ObjectReport(doc, [Member("additionalProperties", sub)], Object([m]), path, depth)
         == ReportAll(doc, [Site(sub, m.value, path + "." + m.name)], depth + 1)
  {
    var s, site := [Member("additionalProperties", sub)], Site(sub, m.value, path + "." + m.name);
    ObjectForm(doc, s, Object([m]), path, depth);
    OnlyGet("additionalProperties", sub, "required");
    OnlyGet("additionalProperties", sub, "properties");
    OnlyGet("additionalProperties", sub, "additionalProperties");
    assert [m][..0] == [];
    assert OtherSites(s, sub, [m], path) == [] + [site];
    Alone(ReportAll(doc, [site], depth + 1));
  }

  lemma {:induction false} AllOfReport(doc: Json, sub: Json, value: Json, path: string, depth: nat)
    requires depth <= MAX_DEPTH
    ensures Reported(doc, "allOf", Array([sub]), value, path, depth)
         == Violations(doc, Site(sub, value, path), depth + 1)
  {
    var v := Array([sub]);
    OneCompositionReport(doc, "allOf", v, value, path, depth);
    AllOfOnly(doc, sub, value, path, depth);
    SchemaReport.OneReport(doc, Site(sub, value, path), depth + 1);
  }

  lemma {:induction false} AllOfOnly(doc: Json, sub: Json, value: Json, path: string, depth: nat)
    requires depth <= MAX_DEPTH
    ensures CompositionReport(doc, [Member("allOf", Array([sub]))], value, path, depth)
         == ReportAll(doc, [Site(sub, value, path)], depth + 1)
  {
    var v, site := Array([sub]), Site(sub, value, path);
    OnlyGet("allOf", v, "anyOf");
    OnlyGet("allOf", v, "oneOf");
    OnlyGet("allOf", v, "allOf");
    OnlyGet("allOf", v, "not");
    assert [sub][..0] == [];
    assert BranchSites([sub], value, path) == [] + [site];
    Alone(ReportAll(doc, [site], depth + 1));
  }

  /** Nodes that are no objects, the depth limit and references that name nothing. */
  lemma {:induction false} NodeReport(doc: Json, schema: Json, value: Json, path: string, depth: nat)
    requires !schema.Object?
    ensures Violations(doc, Site(schema, value, path), depth)
         == if depth > 64 then [Violation(path, DepthExceeded)]
            else match schema
                 case Bool(truth) => if truth then [] else [Violation(path, NothingAllowed)]
                 case _ => [Violation(path, NodeIsNoSchema)]
  {
  }
}
