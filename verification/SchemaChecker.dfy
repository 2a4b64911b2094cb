/** The schema validator (src/schema.rs:130-428): it walks a value beside its schema and pushes
    every violation it finds. */
module SchemaChecker {
  import opened Wrappers
  import opened JsonSchema
  import opened SchemaReport

  lemma JoinTwo<T>(out: seq<T>, a: seq<T>, b: seq<T>)
    ensures out + a + b == out + (a + b)
  {
  }

  lemma JoinThree<T>(out: seq<T>, a: seq<T>, b: seq<T>, c: seq<T>)
    ensures out + a + b + c == out + (a + b + c)
  {
    JoinTwo(out, a, b);
    JoinTwo(out, a + b, c);
  }

  lemma JoinFour<T>(out: seq<T>, a: seq<T>, b: seq<T>, c: seq<T>, d: seq<T>)
    ensures out + a + b + c + d == out + (a + b + c + d)
  {
    JoinThree(out, a, b, c);
    JoinTwo(out, a + b + c, d);
  }

  /** Reporting on one more site after what was reported so far. */
  lemma {:induction false} ReportMore(doc: Json, out: seq<Violation>, sites: seq<Site>, site: Site, depth: nat)
    ensures out + ReportAll(doc, sites + [site], depth)
         == out + ReportAll(doc, sites, depth) + Violations(doc, site, depth)
  {
    ReportOneMore(doc, sites, site, depth);
    JoinTwo(out, ReportAll(doc, sites, depth), Violations(doc, site, depth));
  }

  lemma {:induction false} PropertiesMore(doc: Json, out: seq<Violation>, properties: seq<Member>,
                                          members: seq<Member>, path: string, depth: nat, i: nat)
    requires i < |properties|
    ensures var p := properties[i];
            var before := out + ReportAll(doc, PropertySites(properties[..i], members, path), depth);
            out + ReportAll(doc, PropertySites(properties[..i + 1], members, path), depth)
            == if Has(members, p.name) then
                 before + Violations(doc, Site(p.value, Get(members, p.name).value, path + "." + p.name), depth)
               else before
  {
    var p, before := properties[i], PropertySites(properties[..i], members, path);
    assert properties[..i + 1][..i] == properties[..i];
    if Has(members, p.name) {
      var site := Site(p.value, Get(members, p.name).value, path + "." + p.name);
      assert PropertySites(properties[..i + 1], members, path) == before + [site];
      ReportMore(doc, out, before, site, depth);
    } else {
      assert PropertySites(properties[..i + 1], members, path) == before;
    }
  }

  lemma {:induction false} OthersMore(doc: Json, out: seq<Violation>, s: seq<Member>, additional: Json,
                                      members: seq<Member>, path: string, depth: nat, i: nat)
    requires i < |members|
    ensures var m := members[i];
            var before := out + ReportAll(doc, OtherSites(s, additional, members[..i], path), depth);
            out + ReportAll(doc, OtherSites(s, additional, members[..i + 1], path), depth)
            == if Declared(s, m.name) then before
               else before + Violations(doc, Site(additional, m.value, path + "." + m.name), depth)
  {
    var m, before := members[i], OtherSites(s, additional, members[..i], path);
    assert members[..i + 1][..i] == members[..i];
    if Declared(s, m.name) {
      assert OtherSites(s, additional, members[..i + 1], path) == before;
    } else {
      var site := Site(additional, m.value, path + "." + m.name);
      assert OtherSites(s, additional, members[..i + 1], path) == before + [site];
      ReportMore(doc, out, before, site, depth);
    }
  }

  lemma {:induction false} ItemsMore(doc: Json, out: seq<Violation>, schema: Json, items: seq<Json>, path: string,
                                     depth: nat, i: nat)
    requires i < |items|
    ensures out + ReportAll(doc, ItemSites(schema, items[..i + 1], path), depth)
         == out + ReportAll(doc, ItemSites(schema, items[..i], path), depth)
            + Violations(doc, Site(schema, items[i], ItemPath(path, i)), depth)
  {
    assert items[..i + 1][..i] == items[..i];
    ReportMore(doc, out, ItemSites(schema, items[..i], path), Site(schema, items[i], ItemPath(path, i)), depth);
  }

  lemma {:induction false} BranchesMore(doc: Json, out: seq<Violation>, branches: seq<Json>, value: Json, path: string,
                                        depth: nat, i: nat)
    requires i < |branches|
    ensures out + ReportAll(doc, BranchSites(branches[..i + 1], value, path), depth)
         == out + ReportAll(doc, BranchSites(branches[..i], value, path), depth)
            + Violations(doc, Site(branches[i], value, path), depth)
  {
    assert branches[..i + 1][..i] == branches[..i];
    ReportMore(doc, out, BranchSites(branches[..i], value, path), Site(branches[i], value, path), depth);
  }

  /** Validate a value against a definition. The result is the report of the definition: it
      lists exactly the violations that are due, and is empty exactly if the value satisfies
      the definition. */
  method Validate(doc: Json, definition: string, value: Json) returns (violations: seq<Violation>)
    ensures Defs(doc).None? || !Has(Defs(doc).value, definition) ==>
              violations == [Violation("$", UnknownDefinition(definition))]
    ensures Defs(doc).Some? && Has(Defs(doc).value, definition) ==>
              var site := Site(Get(Defs(doc).value, definition).value, value, "$");
              && violations == Violations(doc, site, 0)
              && (forall v :: v in violations <==> Due(doc, site, 0, v))
              && (violations == [] <==> Sat(doc, site.schema, value, MAX_DEPTH + 1))
              && (Nests(doc, site.schema, MAX_DEPTH) ==> (violations == [] <==> Means(doc, site.schema, value)))
  {
    if Defs(doc).None? || !Has(Defs(doc).value, definition) {
      return [Violation("$", UnknownDefinition(definition))];
    }
    var site := Site(Get(Defs(doc).value, definition).value, value, "$");
    violations := Check(doc, site, 0, []);
    EmptyMeansSat(doc, site, 0, MAX_DEPTH + 1);
    forall v ensures v in Violations(doc, site, 0) <==> Due(doc, site, 0, v) {
      ReportIsDue(doc, site, 0, v);
    }
    if Nests(doc, site.schema, MAX_DEPTH) {
      MeansIsSat(doc, site.schema, value, MAX_DEPTH, MAX_DEPTH + 1);
    }
  }

  method Check(doc: Json, site: Site, depth: nat, out: seq<Violation>) returns (out': seq<Violation>)
    ensures out' == out + Violations(doc, site, depth)
    decreases Fuel(depth), 6
  {
    var Site(schema, value, path) := site;
    if depth > MAX_DEPTH {
      return out + [Violation(path, DepthExceeded)];
    }
    if !schema.Object? {
      return out + if schema == Bool(true) then []
                   else if schema == Bool(false) then [Violation(path, NothingAllowed)]
                   else [Violation(path, NodeIsNoSchema)];
    }
    out' := CheckKeywords(doc, schema.members, value, path, depth, out);
  }

  method CheckKeywords(doc: Json, s: seq<Member>, value: Json, path: string, depth: nat, out: seq<Violation>)
    returns (out': seq<Violation>)
    requires depth <= MAX_DEPTH
    ensures out' == out + Violations(doc, Site(Object(s), value, path), depth)
    decreases Fuel(depth), 5
  {
    out' := CheckReference(doc, s, value, path, depth, out);
    ghost var refs := ReferenceReport(doc, s, value, path, depth);
    if !TypeHolds(s, value) {
      JoinTwo(out, refs, [Violation(path, WrongType(TypeName(value)))]);
      return out' + [Violation(path, WrongType(TypeName(value)))];
    }
    out' := CheckTyped(doc, s, value, path, depth, out');
    JoinTwo(out, refs, TypedReport(doc, s, value, path, depth));
  }

  /** The keywords that presume the right type. */
  method CheckTyped(doc: Json, s: seq<Member>, value: Json, path: string, depth: nat, out: seq<Violation>)
    returns (out': seq<Violation>)
    requires depth <= MAX_DEPTH
    ensures out' == out + TypedReport(doc, s, value, path, depth)
    decreases Fuel(depth), 4
  {
    out' := CheckScalars(s, value, path, out);
    out' := CheckObject(doc, s, value, path, depth, out');
    out' := CheckArray(doc, s, value, path, depth, out');
    out' := CheckComposition(doc, s, value, path, depth, out');
    JoinFour(out, ScalarReport(s, value, path), ObjectReport(doc, s, value, path, depth),
             ArrayReport(doc, s, value, path, depth), CompositionReport(doc, s, value, path, depth));
  }

  method CheckScalars(s: seq<Member>, value: Json, path: string, out: seq<Violation>)
    returns (out': seq<Violation>)
    ensures out' == out + ScalarReport(s, value, path)
  {
    out' := CheckConstants(s, value, path, out);
    out' := CheckString(s, value, path, out');
    out' := CheckNumber(s, value, path, out');
    JoinThree(out, ConstantsOwn(s, value, path), StringOwn(s, value, path), NumberOwn(s, value, path));
  }

  method CheckReference(doc: Json, s: seq<Member>, value: Json, path: string, depth: nat, out: seq<Violation>)
    returns (out': seq<Violation>)
    requires depth <= MAX_DEPTH
    ensures out' == out + ReferenceReport(doc, s, value, path, depth)
    decreases Fuel(depth), 1
  {
    ReferenceForm(doc, s, value, path, depth);
    out' := out;
    var reference := GetText(s, "$ref");
    if reference.Some? {
      var target := Resolve(doc, reference.value);
      if target.Some? {
        out' := Check(doc, Site(target.value, value, path), depth + 1, out);
      } else {
        out' := out + [Violation(path, Unresolvable(reference.value))];
      }
    }
  }

  method CheckConstants(s: seq<Member>, value: Json, path: string, out: seq<Violation>)
    returns (out': seq<Violation>)
    ensures out' == out + ConstantsOwn(s, value, path)
  {
    out' := out;
    var allowed := GetArray(s, "enum");
    if allowed.Some? && value !in allowed.value {
      out' := out' + [Violation(path, NotInEnum)];
    }
    if Has(s, "const") && Get(s, "const").value != value {
      out' := out' + [Violation(path, NotConst)];
    }
  }

  method CheckString(s: seq<Member>, value: Json, path: string, out: seq<Violation>)
    returns (out': seq<Violation>)
    ensures out' == out + StringOwn(s, value, path)
  {
    out' := out;
    if !value.Text? {
      return;
    }
    var length := |value.text|;
    var min := GetSize(s, "minLength");
    if min.Some? && length < min.value {
      out' := out' + [Violation(path, TooShort(min.value))];
    }
    var max := GetSize(s, "maxLength");
    if max.Some? && length > max.value {
      out' := out' + [Violation(path, TooLong(max.value))];
    }
  }

  method CheckNumber(s: seq<Member>, value: Json, path: string, out: seq<Violation>)
    returns (out': seq<Violation>)
    ensures out' == out + NumberOwn(s, value, path)
  {
    if !value.Number? {
      return out;
    }
    out' := CheckBounds(s, AsDouble(value.number), path, out);
  }

  method CheckBounds(s: seq<Member>, number: real, path: string, out: seq<Violation>) returns (out': seq<Violation>)
    ensures out' == out + BoundsOwn(s, number, path)
  {
    out' := out;
    var min := GetDouble(s, "minimum");
    if min.Some? {
      out' := CheckBound("minimum", number >= min.value, path, out');
    }
    ghost var minimum := When(min.Some? && !(number >= min.value), path, OutOfBounds("minimum"));
    assert out' == out + minimum;
    var max := GetDouble(s, "maximum");
    if max.Some? {
      out' := CheckBound("maximum", number <= max.value, path, out');
    }
    ghost var maximum := When(max.Some? && !(number <= max.value), path, OutOfBounds("maximum"));
    assert out' == out + minimum + maximum;
    var above := GetDouble(s, "exclusiveMinimum");
    if above.Some? {
      out' := CheckBound("exclusiveMinimum", number > above.value, path, out');
    }
    ghost var exclusiveMinimum := When(above.Some? && !(number > above.value), path, OutOfBounds("exclusiveMinimum"));
    assert out' == out + minimum + maximum + exclusiveMinimum;
    var below := GetDouble(s, "exclusiveMaximum");
    if below.Some? {
      out' := CheckBound("exclusiveMaximum", number < below.value, path, out');
    }
    ghost var exclusiveMaximum := When(below.Some? && !(number < below.value), path, OutOfBounds("exclusiveMaximum"));
    JoinFour(out, minimum, maximum, exclusiveMinimum, exclusiveMaximum);
  }

  method CheckBound(keyword: string, ok: bool, path: string, out: seq<Violation>) returns (out': seq<Violation>)
    ensures out' == out + When(!ok, path, OutOfBounds(keyword))
  {
    out' := out;
    if !ok {
      out' := out' + [Violation(path, OutOfBounds(keyword))];
    }
  }

  method CheckObject(doc: Json, s: seq<Member>, value: Json, path: string, depth: nat, out: seq<Violation>)
    returns (out': seq<Violation>)
    requires depth <= MAX_DEPTH
    ensures out' == out + ObjectReport(doc, s, value, path, depth)
    decreases Fuel(depth), 3
  {
    ObjectForm(doc, s, value, path, depth);
    if !value.Object? {
      return out;
    }
    var required, properties := Listed(GetArray(s, "required")), Listed(GetObject(s, "properties"));
    out' := CheckRequired(required, value.members, path, out);
    out' := CheckProperties(doc, properties, value.members, path, depth, out');
    out' := CheckAdditional(doc, s, value.members, path, depth, out');
    JoinThree(out, MissingOwn(required, value.members, path),
              ReportAll(doc, PropertySites(properties, value.members, path), depth + 1),
              AdditionalReport(doc, s, value.members, path, depth));
  }

  method CheckAdditional(doc: Json, s: seq<Member>, members: seq<Member>, path: string, depth: nat,
                         out: seq<Violation>)
    returns (out': seq<Violation>)
    requires depth <= MAX_DEPTH
    ensures out' == out + AdditionalReport(doc, s, members, path, depth)
    decreases Fuel(depth), 2
  {
    out' := out;
    var additional := Get(s, "additionalProperties");
    if additional == Some(Bool(false)) {
      out' := CheckUnexpected(s, members, path, out);
    } else if additional.Some? && !additional.value.Bool? {
      out' := CheckOthers(doc, s, additional.value, members, path, depth, out);
    }
  }

  method CheckRequired(required: seq<Json>, members: seq<Member>, path: string, out: seq<Violation>)
    returns (out': seq<Violation>)
    ensures out' == out + MissingOwn(required, members, path)
  {
    out' := out;
    for i := 0 to |required|
      invariant out' == out + MissingOwn(required[..i], members, path)
    {
      assert required[..i + 1][..i] == required[..i];
      if required[i].Text? && !Has(members, required[i].text) {
        out' := out' + [Violation(path, Missing(required[i].text))];
      }
    }
    assert required[..|required|] == required;
  }

  method CheckProperties(doc: Json, properties: seq<Member>, members: seq<Member>, path: string, depth: nat,
                         out: seq<Violation>)
    returns (out': seq<Violation>)
    requires depth <= MAX_DEPTH
    ensures out' == out + ReportAll(doc, PropertySites(properties, members, path), depth + 1)
    decreases Fuel(depth), 0
  {
    out' := out;
    for i := 0 to |properties|
      invariant out' == out + ReportAll(doc, PropertySites(properties[..i], members, path), depth + 1)
    {
      PropertiesMore(doc, out, properties, members, path, depth + 1, i);
      var p := properties[i];
      var child := Get(members, p.name);
      if child.Some? {
        var site := Site(p.value, child.value, path + "." + p.name);
        out' := Check(doc, site, depth + 1, out');
      }
    }
    assert properties[..|properties|] == properties;
  }

  method CheckUnexpected(s: seq<Member>, members: seq<Member>, path: string, out: seq<Violation>)
    returns (out': seq<Violation>)
    ensures out' == out + UnexpectedOwn(s, members, path)
  {
    out' := out;
    for i := 0 to |members|
      invariant out' == out + UnexpectedOwn(s, members[..i], path)
    {
      assert members[..i + 1][..i] == members[..i];
      if !Declared(s, members[i].name) {
        out' := out' + [Violation(path, Unexpected(members[i].name))];
      }
    }
    assert members[..|members|] == members;
  }

  method CheckOthers(doc: Json, s: seq<Member>, additional: Json, members: seq<Member>, path: string, depth: nat,
                     out: seq<Violation>)
    returns (out': seq<Violation>)
    requires depth <= MAX_DEPTH
    ensures out' == out + ReportAll(doc, OtherSites(s, additional, members, path), depth + 1)
    decreases Fuel(depth), 1
  {
    out' := out;
    for i := 0 to |members|
      invariant out' == out + ReportAll(doc, OtherSites(s, additional, members[..i], path), depth + 1)
    {
      OthersMore(doc, out, s, additional, members, path, depth + 1, i);
      out' := CheckOther(doc, s, additional, members[i], path, depth, out');
    }
    assert members[..|members|] == members;
  }

  method CheckOther(doc: Json, s: seq<Member>, additional: Json, m: Member, path: string, depth: nat,
                    out: seq<Violation>)
    returns (out': seq<Violation>)
    requires depth <= MAX_DEPTH
    ensures out' == if Declared(s, m.name) then out
                    else out + Violations(doc, Site(additional, m.value, path + "." + m.name), depth + 1)
    decreases Fuel(depth), 0
  {
    out' := out;
    if !Declared(s, m.name) {
      out' := Check(doc, Site(additional, m.value, path + "." + m.name), depth + 1, out);
    }
  }

  method CheckArray(doc: Json, s: seq<Member>, value: Json, path: string, depth: nat, out: seq<Violation>)
    returns (out': seq<Violation>)
    requires depth <= MAX_DEPTH
    ensures out' == out + ArrayReport(doc, s, value, path, depth)
    decreases Fuel(depth), 1
  {
    ArrayForm(doc, s, value, path, depth);
    out' := out;
    if !value.Array? {
      return;
    }
    ghost var items := if Has(s, "items") then
                         ReportAll(doc, ItemSites(Get(s, "items").value, value.items, path), depth + 1)
                       else [];
    if Has(s, "items") {
      out' := CheckItems(doc, Get(s, "items").value, value.items, path, depth, out);
    }
    assert out' == out + items;
    out' := CheckCounts(s, value, path, out');
    JoinTwo(out, items, CountsOwn(s, value, path));
  }

  method CheckCounts(s: seq<Member>, value: Json, path: string, out: seq<Violation>)
    returns (out': seq<Violation>)
    requires value.Array?
    ensures out' == out + CountsOwn(s, value, path)
  {
    var items := value.items;
    var few, many, repeated: seq<Violation> := [], [], [];
    var min := GetSize(s, "minItems");
    if min.Some? && |items| < min.value {
      few := [Violation(path, TooFewItems(min.value))];
    }
    var max := GetSize(s, "maxItems");
    if max.Some? && |items| > max.value {
      many := [Violation(path, TooManyItems(max.value))];
    }
    if Get(s, "uniqueItems") == Some(Bool(true)) {
      var repeat := FindRepeat(items);
      if repeat < |items| {
        repeated := [Violation(ItemPath(path, repeat), Repeated)];
      }
    }
    out' := out + few + many + repeated;
    JoinThree(out, few, many, repeated);
  }

  method CheckItems(doc: Json, schema: Json, items: seq<Json>, path: string, depth: nat, out: seq<Violation>)
    returns (out': seq<Violation>)
    requires depth <= MAX_DEPTH
    ensures out' == out + ReportAll(doc, ItemSites(schema, items, path), depth + 1)
    decreases Fuel(depth), 0
  {
    out' := out;
    for i := 0 to |items|
      invariant out' == out + ReportAll(doc, ItemSites(schema, items[..i], path), depth + 1)
    {
      ItemsMore(doc, out, schema, items, path, depth + 1, i);
      var site := Site(schema, items[i], ItemPath(path, i));
      out' := Check(doc, site, depth + 1, out');
    }
    assert items[..|items|] == items;
  }

  /** The first item that repeats an earlier one, or the length. */
  method FindRepeat(items: seq<Json>) returns (repeat: nat)
    ensures repeat == FirstRepeat(items)
    ensures repeat <= |items| && Distinct(items[..repeat])
    ensures repeat < |items| ==> items[repeat] in items[..repeat]
  {
    repeat := 0;
    while repeat < |items| && items[repeat] !in items[..repeat]
      invariant repeat <= |items| && FirstRepeat(items[..repeat]) == repeat
    {
      assert items[..repeat + 1][..repeat] == items[..repeat];
      repeat := repeat + 1;
    }
    RepeatIsFirst(items, repeat);
    FirstRepeatIs(items);
  }

  lemma {:induction false} RepeatIsFirst(items: seq<Json>, repeat: nat)
    requires repeat <= |items| && FirstRepeat(items[..repeat]) == repeat
    requires repeat < |items| ==> items[repeat] in items[..repeat]
    ensures FirstRepeat(items) == repeat
    decreases |items|
  {
    var last := |items| - 1;
    if repeat == |items| {
      assert items[..repeat] == items;
    } else if repeat == last {
      assert items[..last] == items[..repeat];
    } else {
      assert items[..last][..repeat] == items[..repeat];
      RepeatIsFirst(items[..last], repeat);
    }
  }

  method CheckComposition(doc: Json, s: seq<Member>, value: Json, path: string, depth: nat, out: seq<Violation>)
    returns (out': seq<Violation>)
    requires depth <= MAX_DEPTH
    ensures out' == out + CompositionReport(doc, s, value, path, depth)
    decreases Fuel(depth), 3
  {
    out' := CheckChoices(doc, s, value, path, depth, out);
    out' := CheckAll(doc, Listed(GetArray(s, "allOf")), value, path, depth, out');
    out' := CheckNot(doc, s, value, path, depth, out');
    JoinThree(out, ChoicesOwn(doc, s, value, path, depth), ReportAll(doc, AllOf(s, value, path), depth + 1),
              NotOwn(doc, s, value, path, depth));
  }

  method CheckChoices(doc: Json, s: seq<Member>, value: Json, path: string, depth: nat, out: seq<Violation>)
    returns (out': seq<Violation>)
    requires depth <= MAX_DEPTH
    ensures out' == out + ChoicesOwn(doc, s, value, path, depth)
    decreases Fuel(depth), 2
  {
    var none, several: seq<Violation> := [], [];
    var anyOf := GetArray(s, "anyOf");
    if anyOf.Some? {
      var found := AnyPasses(doc, anyOf.value, value, path, depth);
      if !found {
        none := [Violation(path, NoBranch)];
      }
    }
    var oneOf := GetArray(s, "oneOf");
    if oneOf.Some? {
      var matches := CountPasses(doc, oneOf.value, value, path, depth);
      if matches != 1 {
        several := [Violation(path, NotOneBranch(matches))];
      }
    }
    out' := out + none + several;
    JoinTwo(out, none, several);
  }

  method CheckNot(doc: Json, s: seq<Member>, value: Json, path: string, depth: nat, out: seq<Violation>)
    returns (out': seq<Violation>)
    requires depth <= MAX_DEPTH
    ensures out' == out + NotOwn(doc, s, value, path, depth)
    decreases Fuel(depth), 1
  {
    out' := out;
    if Has(s, "not") {
      var passes := Passes(doc, Get(s, "not").value, value, path, depth);
      if passes {
        out' := out' + [Violation(path, ForbiddenMatch)];
      }
    }
  }

  method CheckAll(doc: Json, branches: seq<Json>, value: Json, path: string, depth: nat, out: seq<Violation>)
    returns (out': seq<Violation>)
    requires depth <= MAX_DEPTH
    ensures out' == out + ReportAll(doc, BranchSites(branches, value, path), depth + 1)
    decreases Fuel(depth), 0
  {
    out' := out;
    for i := 0 to |branches|
      invariant out' == out + ReportAll(doc, BranchSites(branches[..i], value, path), depth + 1)
    {
      BranchesMore(doc, out, branches, value, path, depth + 1, i);
      var site := Site(branches[i], value, path);
      out' := Check(doc, site, depth + 1, out');
    }
    assert branches[..|branches|] == branches;
  }

  /** Whether a subschema reports nothing, its report thrown away. */
  method Passes(doc: Json, schema: Json, value: Json, path: string, depth: nat) returns (passes: bool)
    requires depth <= MAX_DEPTH
    ensures passes <==> Violations(doc, Site(schema, value, path), depth + 1) == []
    decreases Fuel(depth), 0
  {
    var probe := Check(doc, Site(schema, value, path), depth + 1, []);
    return probe == [];
  }

  method AnyPasses(doc: Json, branches: seq<Json>, value: Json, path: string, depth: nat) returns (found: bool)
    requires depth <= MAX_DEPTH
    ensures found <==> Passing(doc, branches, value, path, depth) > 0
    decreases Fuel(depth), 1
  {
    for i := 0 to |branches|
      invariant Passing(doc, branches[..i], value, path, depth) == 0
    {
      assert branches[..i + 1][..i] == branches[..i];
      found := Passes(doc, branches[i], value, path, depth);
      if found {
        PassingGrows(doc, branches, value, path, depth, i);
        return;
      }
    }
    assert branches[..|branches|] == branches;
    found := false;
  }

  lemma {:induction false} PassingGrows(doc: Json, branches: seq<Json>, value: Json, path: string, depth: nat, i: nat)
    requires depth <= MAX_DEPTH && i < |branches|
    requires Violations(doc, Site(branches[i], value, path), depth + 1) == []
    ensures Passing(doc, branches, value, path, depth) > 0
    decreases |branches|
  {
    if i < |branches| - 1 {
      PassingGrows(doc, branches[..|branches| - 1], value, path, depth, i);
    }
  }

  /** The number of branches that pass, all of them tried. */
  method CountPasses(doc: Json, branches: seq<Json>, value: Json, path: string, depth: nat) returns (matches: nat)
    requires depth <= MAX_DEPTH
    ensures matches == Passing(doc, branches, value, path, depth)
    decreases Fuel(depth), 1
  {
    matches := 0;
    for i := 0 to |branches|
      invariant matches == Passing(doc, branches[..i], value, path, depth)
    {
      assert branches[..i + 1][..i] == branches[..i];
      var passes := Passes(doc, branches[i], value, path, depth);
      if passes {
        matches := matches + 1;
      }
    }
    assert branches[..|branches|] == branches;
  }
}
