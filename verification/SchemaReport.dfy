/** What the validator reports (src/schema.rs:156-428): the list of violations of a value, and
    what it means that one is on the list. */
module SchemaReport {
  import opened Wrappers
  import opened JsonSchema

  /** The recursion limit, on subschemas and references together. */
  const MAX_DEPTH := 64

  datatype Problem =
    | UnknownDefinition(definition: string) | DepthExceeded | NothingAllowed | NodeIsNoSchema
    | Unresolvable(reference: string) | WrongType(got: string) | NotInEnum | NotConst
    | TooShort(min: nat) | TooLong(max: nat) | OutOfBounds(keyword: string)
    | Missing(name: string) | Unexpected(name: string)
    | TooFewItems(min: nat) | TooManyItems(max: nat) | Repeated
    | NoBranch | NotOneBranch(matches: nat) | ForbiddenMatch

  datatype Violation = Violation(path: string, problem: Problem)

  /** A value to be checked against a schema node, and where it lies. */
  datatype Site = Site(schema: Json, value: Json, path: string)

  /** The levels that remain at a depth. */
  function Fuel(depth: nat): nat {
    if depth > MAX_DEPTH then 0 else MAX_DEPTH + 1 - depth
  }

  function Decimal(n: nat): string {
    (if n < 10 then "" else Decimal(n / 10)) + ["0123456789"[n % 10]]
  }

  function ItemPath(path: string, i: nat): string {
    path + "[" + Decimal(i) + "]"
  }

  /** The numeral denotes the number. */
  function Denoted(numeral: string): int {
    if numeral == "" then 0
    else 10 * Denoted(numeral[..|numeral| - 1]) + (numeral[|numeral| - 1] as int - '0' as int)
  }

  /** The place of an item is its array's place and its index in brackets, as a decimal numeral
      without leading zeros. */
  lemma {:induction false} ItemPathLaw(path: string, i: nat)
    ensures exists numeral ::
              && ItemPath(path, i) == path + "[" + numeral + "]" && Denoted(numeral) == i
              && numeral != "" && (forall c :: c in numeral ==> '0' <= c <= '9')
              && (numeral[0] == '0' ==> numeral == "0")
  {
    DecimalDenotes(i);
  }

  lemma DigitDenotes(d: nat)
    requires d < 10
    ensures var c := "0123456789"[d]; '0' <= c <= '9' && c as int - '0' as int == d && (c == '0' <==> d == 0)
  {
  }

  lemma {:induction false} LastDigit(n: nat)
    ensures Decimal(n) == (if n < 10 then "" else Decimal(n / 10)) + ["0123456789"[n % 10]]
    ensures Decimal(n)[..|Decimal(n)| - 1] == if n < 10 then "" else Decimal(n / 10)
  {
  }

  lemma {:induction false} DecimalDenotes(n: nat)
    ensures Denoted(Decimal(n)) == n && Decimal(n) != ""
    ensures forall c :: c in Decimal(n) ==> '0' <= c <= '9'
    ensures Decimal(n)[0] == '0' ==> n == 0 && Decimal(n) == "0"
  {
    LastDigit(n);
    DigitDenotes(n % 10);
    if n >= 10 {
      DecimalDenotes(n / 10);
    }
  }

  function When(fails: bool, path: string, problem: Problem): seq<Violation> {
    if fails then [Violation(path, problem)] else []
  }

  // ---------------------------------------------------------- the sites visited below

  function ReferenceSites(doc: Json, s: seq<Member>, value: Json, path: string): seq<Site> {
    var reference := GetText(s, "$ref");
    if reference.Some? && Resolve(doc, reference.value).Some?
    then [Site(Resolve(doc, reference.value).value, value, path)] else []
  }

  function PropertySites(properties: seq<Member>, members: seq<Member>, path: string): seq<Site> {
    if properties == [] then []
    else
      var p := properties[|properties| - 1];
      var child := Get(members, p.name);
      PropertySites(properties[..|properties| - 1], members, path)
      + (if child.Some? then [Site(p.value, child.value, path + "." + p.name)] else [])
  }

  function OtherSites(s: seq<Member>, additional: Json, members: seq<Member>, path: string): seq<Site> {
    if members == [] then []
    else
      var m := members[|members| - 1];
      OtherSites(s, additional, members[..|members| - 1], path)
      + (if Declared(s, m.name) then [] else [Site(additional, m.value, path + "." + m.name)])
  }

  function ItemSites(schema: Json, items: seq<Json>, path: string): seq<Site> {
    if items == [] then []
    else
      var last := |items| - 1;
      ItemSites(schema, items[..last], path) + [Site(schema, items[last], ItemPath(path, last))]
  }

  function BranchSites(branches: seq<Json>, value: Json, path: string): seq<Site> {
    if branches == [] then []
    else
      var last := |branches| - 1;
      BranchSites(branches[..last], value, path) + [Site(branches[last], value, path)]
  }

  /** `additionalProperties`, when it is a schema for the undeclared properties. */
  function AdditionalSites(s: seq<Member>, members: seq<Member>, path: string): seq<Site> {
    var additional := Get(s, "additionalProperties");
    if additional.None? || additional.value.Bool? then [] else OtherSites(s, additional.value, members, path)
  }

  function PropertiesOf(s: seq<Member>, value: Json, path: string): seq<Site> {
    if value.Object? then PropertySites(Listed(GetObject(s, "properties")), value.members, path) else []
  }

  function AdditionalOf(s: seq<Member>, value: Json, path: string): seq<Site> {
    if value.Object? then AdditionalSites(s, value.members, path) else []
  }

  function ItemsOf(s: seq<Member>, value: Json, path: string): seq<Site> {
    if value.Array? && Has(s, "items") then ItemSites(Get(s, "items").value, value.items, path) else []
  }

  function AllOf(s: seq<Member>, value: Json, path: string): seq<Site> {
    BranchSites(Listed(GetArray(s, "allOf")), value, path)
  }

  // -------------------------------------------------------------- the node's own failures

  function UnresolvedOwn(doc: Json, s: seq<Member>, path: string): seq<Violation> {
    var reference := GetText(s, "$ref");
    if reference.Some? then When(Resolve(doc, reference.value).None?, path, Unresolvable(reference.value)) else []
  }

  function ConstantsOwn(s: seq<Member>, value: Json, path: string): seq<Violation> {
    When(GetArray(s, "enum").Some? && value !in GetArray(s, "enum").value, path, NotInEnum)
    + When(Has(s, "const") && Get(s, "const").value != value, path, NotConst)
  }

  function StringOwn(s: seq<Member>, value: Json, path: string): seq<Violation> {
    if !value.Text? then []
    else
      var min, max := GetSize(s, "minLength"), GetSize(s, "maxLength");
      (if min.Some? then When(|value.text| < min.value, path, TooShort(min.value)) else [])
      + (if max.Some? then When(|value.text| > max.value, path, TooLong(max.value)) else [])
  }

  function NumberOwn(s: seq<Member>, value: Json, path: string): seq<Violation> {
    if value.Number? then BoundsOwn(s, AsDouble(value.number), path) else []
  }

  function BoundsOwn(s: seq<Member>, number: real, path: string): seq<Violation> {
    var min, max := GetDouble(s, "minimum"), GetDouble(s, "maximum");
    var above, below := GetDouble(s, "exclusiveMinimum"), GetDouble(s, "exclusiveMaximum");
    When(min.Some? && !(number >= min.value), path, OutOfBounds("minimum"))
    + When(max.Some? && !(number <= max.value), path, OutOfBounds("maximum"))
    + When(above.Some? && !(number > above.value), path, OutOfBounds("exclusiveMinimum"))
    + When(below.Some? && !(number < below.value), path, OutOfBounds("exclusiveMaximum"))
  }

  function MissingOwn(required: seq<Json>, members: seq<Member>, path: string): seq<Violation> {
    if required == [] then []
    else
      var n := required[|required| - 1];
      MissingOwn(required[..|required| - 1], members, path)
      + (if n.Text? then When(!Has(members, n.text), path, Missing(n.text)) else [])
  }

  function RequiredOwn(s: seq<Member>, value: Json, path: string): seq<Violation> {
    if value.Object? then MissingOwn(Listed(GetArray(s, "required")), value.members, path) else []
  }

  function UnexpectedOwn(s: seq<Member>, members: seq<Member>, path: string): seq<Violation> {
    if members == [] then []
    else
      var m := members[|members| - 1];
      UnexpectedOwn(s, members[..|members| - 1], path) + When(!Declared(s, m.name), path, Unexpected(m.name))
  }

  function AdditionalOwn(s: seq<Member>, value: Json, path: string): seq<Violation> {
    if value.Object? && Get(s, "additionalProperties") == Some(Bool(false))
    then UnexpectedOwn(s, value.members, path) else []
  }

  /** The position of the first item that repeats an earlier one. */
  function FirstRepeat(items: seq<Json>): nat {
    if items == [] then 0
    else
      var last := |items| - 1;
      var i := FirstRepeat(items[..last]);
      if i < last || items[last] in items[..last] then i else |items|
  }

  lemma {:induction false} FirstRepeatIs(items: seq<Json>)
    ensures var i := FirstRepeat(items);
            i <= |items| && Distinct(items[..i]) && (i < |items| ==> items[i] in items[..i])
    decreases |items|
  {
    if items != [] {
      var last := |items| - 1;
      var before, i := items[..last], FirstRepeat(items);
      FirstRepeatIs(before);
      if i < last {
        assert before[..i] == items[..i];
      } else {
        assert before[..last] == before;
        if i == |items| {
          DistinctMore(before, items[last]);
          assert items[..i] == before + [items[last]];
        }
      }
    }
  }

  lemma DistinctMore(items: seq<Json>, item: Json)
    requires Distinct(items) && item !in items
    ensures Distinct(items + [item])
  {
    assert forall i :: 0 <= i < |items| ==> (items + [item])[i] == items[i] && items[i] in items;
  }

  function CountsOwn(s: seq<Member>, value: Json, path: string): seq<Violation> {
    if !value.Array? then []
    else
      var items := value.items;
      var min, max := GetSize(s, "minItems"), GetSize(s, "maxItems");
      var repeat := FirstRepeat(items);
      (if min.Some? then When(|items| < min.value, path, TooFewItems(min.value)) else [])
      + (if max.Some? then When(|items| > max.value, path, TooManyItems(max.value)) else [])
      + When(Get(s, "uniqueItems") == Some(Bool(true)) && repeat < |items|, ItemPath(path, repeat), Repeated)
  }

  /** How many branches report nothing. */
  ghost function Passing(doc: Json, branches: seq<Json>, value: Json, path: string, depth: nat): nat
    requires depth <= MAX_DEPTH
    decreases Fuel(depth), 1, |branches|
  {
    if branches == [] then 0
    else
      var last := |branches| - 1;
      Passing(doc, branches[..last], value, path, depth)
      + (if Violations(doc, Site(branches[last], value, path), depth + 1) == [] then 1 else 0)
  }

  ghost function ChoicesOwn(doc: Json, s: seq<Member>, value: Json, path: string, depth: nat): seq<Violation>
    requires depth <= MAX_DEPTH
    decreases Fuel(depth), 2, 0
  {
    var anyOf, oneOf := GetArray(s, "anyOf"), GetArray(s, "oneOf");
    (if anyOf.Some? then When(Passing(doc, anyOf.value, value, path, depth) == 0, path, NoBranch) else [])
    + (if oneOf.Some? then
         var matches := Passing(doc, oneOf.value, value, path, depth);
         When(matches != 1, path, NotOneBranch(matches))
       else [])
  }

  ghost function NotOwn(doc: Json, s: seq<Member>, value: Json, path: string, depth: nat): seq<Violation>
    requires depth <= MAX_DEPTH
    decreases Fuel(depth), 2, 0
  {
    if !Has(s, "not") then []
    else When(Violations(doc, Site(Get(s, "not").value, value, path), depth + 1) == [], path, ForbiddenMatch)
  }

  // ------------------------------------------------------------------------ the report

  /** The report on a site, keyword by keyword. */
  ghost function Violations(doc: Json, site: Site, depth: nat): seq<Violation>
    decreases Fuel(depth), 5, 0
  {
    var Site(schema, value, path) := site;
    if depth > MAX_DEPTH then [Violation(path, DepthExceeded)]
    else if !schema.Object? then
      When(schema == Bool(false), path, NothingAllowed) + When(!schema.Bool?, path, NodeIsNoSchema)
    else
      var s := schema.members;
      ReferenceReport(doc, s, value, path, depth)
      + if TypeHolds(s, value) then TypedReport(doc, s, value, path, depth)
        else [Violation(path, WrongType(TypeName(value)))]
  }

  ghost function ReferenceReport(doc: Json, s: seq<Member>, value: Json, path: string, depth: nat): seq<Violation>
    requires depth <= MAX_DEPTH
    decreases Fuel(depth), 2, 0
  {
    ReportAll(doc, ReferenceSites(doc, s, value, path), depth + 1) + UnresolvedOwn(doc, s, path)
  }

  ghost function TypedReport(doc: Json, s: seq<Member>, value: Json, path: string, depth: nat): seq<Violation>
    requires depth <= MAX_DEPTH
    decreases Fuel(depth), 4, 0
  {
    ScalarReport(s, value, path)
    + ObjectReport(doc, s, value, path, depth)
    + ArrayReport(doc, s, value, path, depth)
    + CompositionReport(doc, s, value, path, depth)
  }

  function ScalarReport(s: seq<Member>, value: Json, path: string): seq<Violation> {
    ConstantsOwn(s, value, path) + StringOwn(s, value, path) + NumberOwn(s, value, path)
  }

  ghost function ObjectReport(doc: Json, s: seq<Member>, value: Json, path: string, depth: nat): seq<Violation>
    requires depth <= MAX_DEPTH
    decreases Fuel(depth), 2, 0
  {
    RequiredOwn(s, value, path)
    + ReportAll(doc, PropertiesOf(s, value, path), depth + 1)
    + AdditionalOwn(s, value, path)
    + ReportAll(doc, AdditionalOf(s, value, path), depth + 1)
  }

  ghost function ArrayReport(doc: Json, s: seq<Member>, value: Json, path: string, depth: nat): seq<Violation>
    requires depth <= MAX_DEPTH
    decreases Fuel(depth), 2, 0
  {
    ReportAll(doc, ItemsOf(s, value, path), depth + 1) + CountsOwn(s, value, path)
  }

  ghost function CompositionReport(doc: Json, s: seq<Member>, value: Json, path: string, depth: nat): seq<Violation>
    requires depth <= MAX_DEPTH
    decreases Fuel(depth), 3, 0
  {
    ChoicesOwn(doc, s, value, path, depth)
    + ReportAll(doc, AllOf(s, value, path), depth + 1)
    + NotOwn(doc, s, value, path, depth)
  }

  /** The reports on several sites, one after the other. */
  ghost function ReportAll(doc: Json, sites: seq<Site>, depth: nat): seq<Violation>
    decreases Fuel(depth), 6, |sites|
  {
    if sites == [] then []
    else
      var last := |sites| - 1;
      ReportAll(doc, sites[..last], depth) + Violations(doc, sites[last], depth)
  }

  lemma {:induction false} ReportOneMore(doc: Json, sites: seq<Site>, site: Site, depth: nat)
    ensures ReportAll(doc, sites + [site], depth) == ReportAll(doc, sites, depth) + Violations(doc, site, depth)
  {
    assert (sites + [site])[..|sites|] == sites;
  }

  /** What `additionalProperties` adds to the report of an object. */
  ghost function AdditionalReport(doc: Json, s: seq<Member>, members: seq<Member>, path: string, depth: nat)
    : seq<Violation>
  {
    var additional := Get(s, "additionalProperties");
    if additional == Some(Bool(false)) then UnexpectedOwn(s, members, path)
    else if additional.None? || additional.value.Bool? then []
    else ReportAll(doc, OtherSites(s, additional.value, members, path), depth + 1)
  }

  lemma {:induction false} ObjectForm(doc: Json, s: seq<Member>, value: Json, path: string, depth: nat)
    requires depth <= MAX_DEPTH
    ensures !value.Object? ==> ObjectReport(doc, s, value, path, depth) == []
    ensures value.Object? ==>
              ObjectReport(doc, s, value, path, depth)
              == MissingOwn(Listed(GetArray(s, "required")), value.members, path)
                 + ReportAll(doc, PropertySites(Listed(GetObject(s, "properties")), value.members, path), depth + 1)
                 + AdditionalReport(doc, s, value.members, path, depth)
  {
  }

  lemma {:induction false} OneReport(doc: Json, site: Site, depth: nat)
    ensures ReportAll(doc, [site], depth) == Violations(doc, site, depth)
  {
    assert [] + [site] == [site];
    ReportOneMore(doc, [], site, depth);
  }

  lemma {:induction false} ReferenceForm(doc: Json, s: seq<Member>, value: Json, path: string, depth: nat)
    requires depth <= MAX_DEPTH
    ensures var reference := GetText(s, "$ref");
            ReferenceReport(doc, s, value, path, depth)
            == if reference.None? then []
               else if Resolve(doc, reference.value).None? then [Violation(path, Unresolvable(reference.value))]
               else Violations(doc, Site(Resolve(doc, reference.value).value, value, path), depth + 1)
  {
    var reference := GetText(s, "$ref");
    if reference.Some? && Resolve(doc, reference.value).Some? {
      Resolved(doc, s, value, path, depth);
    }
  }

  lemma {:induction false} Resolved(doc: Json, s: seq<Member>, value: Json, path: string, depth: nat)
    requires depth <= MAX_DEPTH
    requires GetText(s, "$ref").Some? && Resolve(doc, GetText(s, "$ref").value).Some?
    ensures ReferenceReport(doc, s, value, path, depth)
         == Violations(doc, Site(Resolve(doc, GetText(s, "$ref").value).value, value, path), depth + 1)
  {
    OneReport(doc, Site(Resolve(doc, GetText(s, "$ref").value).value, value, path), depth + 1);
  }

  lemma {:induction false} ArrayForm(doc: Json, s: seq<Member>, value: Json, path: string, depth: nat)
    requires depth <= MAX_DEPTH
    ensures !value.Array? ==> ArrayReport(doc, s, value, path, depth) == []
    ensures value.Array? ==>
              ArrayReport(doc, s, value, path, depth)
              == (if Has(s, "items") then
                    ReportAll(doc, ItemSites(Get(s, "items").value, value.items, path), depth + 1)
                  else [])
                 + CountsOwn(s, value, path)
  {
  }

  // ----------------------------------------------- nothing is reported exactly if satisfied

  /** Reports at a depth are empty exactly where the oracle is satisfied. */
  ghost predicate Judges(doc: Json, depth: nat, sat: Oracle) {
    forall site :: Violations(doc, site, depth) == [] <==> sat(site.schema, site.value)
  }

  ghost predicate AllSat(sites: seq<Site>, sat: Oracle) {
    forall site :: site in sites ==> sat(site.schema, site.value)
  }

  lemma AllSatMore(sites: seq<Site>, site: Site, sat: Oracle)
    ensures AllSat(sites + [site], sat) <==> AllSat(sites, sat) && sat(site.schema, site.value)
  {
    assert forall x :: x in sites + [site] <==> x in sites || x == site;
  }

  lemma {:induction false} AllEmpty(doc: Json, sites: seq<Site>, depth: nat, sat: Oracle)
    requires Judges(doc, depth, sat)
    ensures ReportAll(doc, sites, depth) == [] <==> AllSat(sites, sat)
    decreases |sites|
  {
    if sites != [] {
      var last := |sites| - 1;
      AllEmpty(doc, sites[..last], depth, sat);
      AllSatMore(sites[..last], sites[last], sat);
      assert sites == sites[..last] + [sites[last]];
    }
  }

  lemma {:induction false} PropertySitesSat(properties: seq<Member>, members: seq<Member>, path: string, sat: Oracle)
    ensures AllSat(PropertySites(properties, members, path), sat) <==> PropertiesHold(properties, members, sat)
    decreases |properties|
  {
    if properties != [] {
      var last := |properties| - 1;
      var p, before := properties[last], PropertySites(properties[..last], members, path);
      PropertySitesSat(properties[..last], members, path, sat);
      assert forall x :: x in properties <==> x in properties[..last] || x == p;
      if Has(members, p.name) {
        AllSatMore(before, Site(p.value, Get(members, p.name).value, path + "." + p.name), sat);
      }
    }
  }

  lemma {:induction false} OtherSitesSat(s: seq<Member>, additional: Json, members: seq<Member>, path: string,
                                         sat: Oracle)
    ensures AllSat(OtherSites(s, additional, members, path), sat) <==> OthersHold(s, additional, members, sat)
    decreases |members|
  {
    if members != [] {
      var last := |members| - 1;
      var m, before := members[last], OtherSites(s, additional, members[..last], path);
      OtherSitesSat(s, additional, members[..last], path, sat);
      assert forall x :: x in members <==> x in members[..last] || x == m;
      AllSatMore(before, Site(additional, m.value, path + "." + m.name), sat);
    }
  }

  lemma EachMore(schema: Json, items: seq<Json>, item: Json, sat: Oracle)
    ensures EachHolds(schema, items + [item], sat) <==> EachHolds(schema, items, sat) && sat(schema, item)
  {
    assert forall x :: x in items + [item] <==> x in items || x == item;
  }

  lemma {:induction false} ItemSitesSat(schema: Json, items: seq<Json>, path: string, sat: Oracle)
    ensures AllSat(ItemSites(schema, items, path), sat) <==> EachHolds(schema, items, sat)
    decreases |items|
  {
    if items != [] {
      var last := |items| - 1;
      ItemSitesSat(schema, items[..last], path, sat);
      EachMore(schema, items[..last], items[last], sat);
      assert items == items[..last] + [items[last]];
      AllSatMore(ItemSites(schema, items[..last], path), Site(schema, items[last], ItemPath(path, last)), sat);
    }
  }

  lemma {:induction false} BranchSitesSat(branches: seq<Json>, value: Json, path: string, sat: Oracle)
    ensures AllSat(BranchSites(branches, value, path), sat) <==> AllHold(branches, value, sat)
    decreases |branches|
  {
    if branches != [] {
      var last := |branches| - 1;
      BranchSitesSat(branches[..last], value, path, sat);
      assert forall x :: x in branches <==> x in branches[..last] || x == branches[last];
      AllSatMore(BranchSites(branches[..last], value, path), Site(branches[last], value, path), sat);
    }
  }

  lemma {:induction false} ReferenceEmpty(doc: Json, s: seq<Member>, value: Json, path: string, depth: nat, sat: Oracle)
    requires depth <= MAX_DEPTH && Judges(doc, depth + 1, sat)
    ensures ReferenceReport(doc, s, value, path, depth) == [] <==> RefHolds(doc, s, value, sat)
  {
    AllEmpty(doc, ReferenceSites(doc, s, value, path), depth + 1, sat);
  }

  lemma ScalarEmpty(s: seq<Member>, value: Json, path: string)
    ensures ConstantsOwn(s, value, path) == [] <==> ConstantsHold(s, value)
    ensures StringOwn(s, value, path) == [] <==> StringHolds(s, value)
    ensures NumberOwn(s, value, path) == [] <==> NumberHolds(s, value)
  {
  }

  lemma {:induction false} MissingEmpty(required: seq<Json>, members: seq<Member>, path: string)
    ensures MissingOwn(required, members, path) == [] <==> RequiredHold(required, members)
    decreases |required|
  {
    if required != [] {
      var last := |required| - 1;
      MissingEmpty(required[..last], members, path);
      assert forall x :: x in required <==> x in required[..last] || x == required[last];
    }
  }

  lemma NothingElseMore(s: seq<Member>, members: seq<Member>, m: Member)
    ensures NothingElse(s, members + [m]) <==> NothingElse(s, members) && Declared(s, m.name)
  {
    assert forall x :: x in members + [m] <==> x in members || x == m;
  }

  lemma {:induction false} UnexpectedEmpty(s: seq<Member>, members: seq<Member>, path: string)
    ensures UnexpectedOwn(s, members, path) == [] <==> NothingElse(s, members)
    decreases |members|
  {
    if members != [] {
      var last := |members| - 1;
      UnexpectedEmpty(s, members[..last], path);
      NothingElseMore(s, members[..last], members[last]);
      assert members == members[..last] + [members[last]];
    }
  }

  lemma AdditionalEmpty(doc: Json, s: seq<Member>, value: Json, path: string, depth: nat, sat: Oracle)
    requires value.Object? && depth <= MAX_DEPTH && Judges(doc, depth + 1, sat)
    ensures AdditionalOwn(s, value, path) == [] && ReportAll(doc, AdditionalOf(s, value, path), depth + 1) == []
       <==> AdditionalHolds(s, value.members, sat)
  {
    var additional := Get(s, "additionalProperties");
    if additional == Some(Bool(false)) {
      UnexpectedEmpty(s, value.members, path);
      assert AdditionalOf(s, value, path) == [];
    } else if additional.None? || additional.value.Bool? {
      assert AdditionalOf(s, value, path) == [] && AdditionalOwn(s, value, path) == [];
    } else {
      assert AdditionalOwn(s, value, path) == [];
      OthersEmpty(doc, s, additional.value, value.members, path, depth, sat);
    }
  }

  lemma OthersEmpty(doc: Json, s: seq<Member>, additional: Json, members: seq<Member>, path: string, depth: nat,
                    sat: Oracle)
    requires Judges(doc, depth + 1, sat)
    ensures ReportAll(doc, OtherSites(s, additional, members, path), depth + 1) == []
       <==> OthersHold(s, additional, members, sat)
  {
    AllEmpty(doc, OtherSites(s, additional, members, path), depth + 1, sat);
    OtherSitesSat(s, additional, members, path, sat);
  }

  lemma {:induction false} ObjectEmpty(doc: Json, s: seq<Member>, value: Json, path: string, depth: nat, sat: Oracle)
    requires depth <= MAX_DEPTH && Judges(doc, depth + 1, sat)
    ensures ObjectReport(doc, s, value, path, depth) == [] <==> ObjectHolds(s, value, sat)
  {
    if value.Object? {
      MissingEmpty(Listed(GetArray(s, "required")), value.members, path);
      AllEmpty(doc, PropertiesOf(s, value, path), depth + 1, sat);
      PropertySitesSat(Listed(GetObject(s, "properties")), value.members, path, sat);
      AdditionalEmpty(doc, s, value, path, depth, sat);
    }
  }

  lemma {:induction false} RepeatMeansNotDistinct(items: seq<Json>)
    ensures FirstRepeat(items) < |items| <==> !Distinct(items)
  {
    var i := FirstRepeat(items);
    FirstRepeatIs(items);
    if i < |items| {
      var j :| 0 <= j < i && items[..i][j] == items[i];
      assert items[j] == items[i];
    } else {
      assert items[..i] == items;
    }
  }

  lemma {:induction false} ArrayEmpty(doc: Json, s: seq<Member>, value: Json, path: string, depth: nat, sat: Oracle)
    requires depth <= MAX_DEPTH && Judges(doc, depth + 1, sat)
    ensures ArrayReport(doc, s, value, path, depth) == [] <==> ArrayHolds(s, value, sat)
  {
    AllEmpty(doc, ItemsOf(s, value, path), depth + 1, sat);
    if value.Array? {
      RepeatMeansNotDistinct(value.items);
      if Has(s, "items") {
        ItemSitesSat(Get(s, "items").value, value.items, path, sat);
      }
    }
  }

  lemma {:induction false} PassingMatches(doc: Json, branches: seq<Json>, value: Json, path: string, depth: nat,
                                          sat: Oracle)
    requires depth <= MAX_DEPTH && Judges(doc, depth + 1, sat)
    ensures Passing(doc, branches, value, path, depth) == Matches(branches, value, sat)
    decreases |branches|
  {
    if branches != [] {
      var last := |branches| - 1;
      PassingMatches(doc, branches[..last], value, path, depth, sat);
      assert Violations(doc, Site(branches[last], value, path), depth + 1) == [] <==> sat(branches[last], value);
    }
  }

  lemma {:induction false} ChoicesEmpty(doc: Json, s: seq<Member>, value: Json, path: string, depth: nat, sat: Oracle)
    requires depth <= MAX_DEPTH && Judges(doc, depth + 1, sat)
    ensures ChoicesOwn(doc, s, value, path, depth) == []
       <==> (GetArray(s, "anyOf").Some? ==> SomeHolds(GetArray(s, "anyOf").value, value, sat))
            && (GetArray(s, "oneOf").Some? ==> OneHolds(GetArray(s, "oneOf").value, value, sat))
  {
    var anyOf, oneOf := Listed(GetArray(s, "anyOf")), Listed(GetArray(s, "oneOf"));
    PassingMatches(doc, anyOf, value, path, depth, sat);
    PassingMatches(doc, oneOf, value, path, depth, sat);
    OneMatchIsOneHolds(anyOf, value, sat);
    OneMatchIsOneHolds(oneOf, value, sat);
  }

  lemma {:induction false} CompositionEmpty(doc: Json, s: seq<Member>, value: Json, path: string, depth: nat,
                                            sat: Oracle)
    requires depth <= MAX_DEPTH && Judges(doc, depth + 1, sat)
    ensures CompositionReport(doc, s, value, path, depth) == [] <==> CompositionHolds(s, value, sat)
  {
    ChoicesEmpty(doc, s, value, path, depth, sat);
    AllEmpty(doc, AllOf(s, value, path), depth + 1, sat);
    BranchSitesSat(Listed(GetArray(s, "allOf")), value, path, sat);
    if Has(s, "not") {
      assert Violations(doc, Site(Get(s, "not").value, value, path), depth + 1) == []
        <==> sat(Get(s, "not").value, value);
    }
  }

  lemma {:induction false} KeywordsEmpty(doc: Json, s: seq<Member>, value: Json, path: string, depth: nat, sat: Oracle)
    requires depth <= MAX_DEPTH && Judges(doc, depth + 1, sat)
    ensures Violations(doc, Site(Object(s), value, path), depth) == [] <==> KeywordsHold(doc, s, value, sat)
  {
    ReferenceEmpty(doc, s, value, path, depth, sat);
    ScalarEmpty(s, value, path);
    ObjectEmpty(doc, s, value, path, depth, sat);
    ArrayEmpty(doc, s, value, path, depth, sat);
    CompositionEmpty(doc, s, value, path, depth, sat);
  }

  /** The report is empty exactly if the value satisfies the schema with the levels left. */
  lemma {:induction false} EmptyMeansSat(doc: Json, site: Site, depth: nat, fuel: nat)
    requires fuel == Fuel(depth)
    ensures Violations(doc, site, depth) == [] <==> Sat(doc, site.schema, site.value, fuel)
    decreases fuel, 1
  {
    if fuel > 0 && site.schema.Object? {
      SatJudges(doc, depth, fuel - 1);
      KeywordsEmpty(doc, site.schema.members, site.value, site.path, depth, SatWith(doc, fuel - 1));
    }
  }

  lemma {:induction false} SatJudges(doc: Json, depth: nat, fuel: nat)
    requires fuel == Fuel(depth + 1)
    ensures Judges(doc, depth + 1, SatWith(doc, fuel))
    decreases fuel, 2
  {
    forall below: Site
      ensures Violations(doc, below, depth + 1) == [] <==> SatWith(doc, fuel)(below.schema, below.value)
    {
      EmptyMeansSat(doc, below, depth + 1, fuel);
    }
  }

  // -------------------------------------------------------- every violation is reported

  function ObjectOwn(s: seq<Member>, value: Json, path: string): seq<Violation> {
    RequiredOwn(s, value, path) + AdditionalOwn(s, value, path)
  }

  ghost function CompositionOwn(doc: Json, s: seq<Member>, value: Json, path: string, depth: nat): seq<Violation>
    requires depth <= MAX_DEPTH
  {
    ChoicesOwn(doc, s, value, path, depth) + NotOwn(doc, s, value, path, depth)
  }

  ghost function TypedOwn(doc: Json, s: seq<Member>, value: Json, path: string, depth: nat): seq<Violation>
    requires depth <= MAX_DEPTH
  {
    ScalarReport(s, value, path) + ObjectOwn(s, value, path) + CountsOwn(s, value, path)
    + CompositionOwn(doc, s, value, path, depth)
  }

  /** The failures of the node itself. */
  ghost function Own(doc: Json, site: Site, depth: nat): seq<Violation> {
    var Site(schema, value, path) := site;
    if depth > MAX_DEPTH then [Violation(path, DepthExceeded)]
    else if !schema.Object? then
      When(schema == Bool(false), path, NothingAllowed) + When(!schema.Bool?, path, NodeIsNoSchema)
    else
      UnresolvedOwn(doc, schema.members, path)
      + if TypeHolds(schema.members, value) then TypedOwn(doc, schema.members, value, path, depth)
        else [Violation(path, WrongType(TypeName(value)))]
  }

  function ObjectSites(s: seq<Member>, value: Json, path: string): seq<Site> {
    PropertiesOf(s, value, path) + AdditionalOf(s, value, path)
  }

  function TypedSites(s: seq<Member>, value: Json, path: string): seq<Site> {
    ObjectSites(s, value, path) + ItemsOf(s, value, path) + AllOf(s, value, path)
  }

  /** The sites whose reports are part of the node's: a value of the wrong type is not looked
      into, and what branches of a choice report is thrown away. */
  function Visited(doc: Json, site: Site): seq<Site> {
    var Site(schema, value, path) := site;
    if !schema.Object? then []
    else
      ReferenceSites(doc, schema.members, value, path)
      + if TypeHolds(schema.members, value) then TypedSites(schema.members, value, path) else []
  }

  /** The violation is a failure of the node itself or of some node visited from it. */
  ghost predicate Due(doc: Json, site: Site, depth: nat, v: Violation)
    decreases Fuel(depth)
  {
    || v in Own(doc, site, depth)
    || (depth <= MAX_DEPTH && exists below :: below in Visited(doc, site) && Due(doc, below, depth + 1, v))
  }

  /** The violation is on the report of one of the sites. */
  ghost predicate From(doc: Json, sites: seq<Site>, depth: nat, v: Violation) {
    exists site :: site in sites && v in Violations(doc, site, depth)
  }

  lemma FromBoth(doc: Json, sites: seq<Site>, more: seq<Site>, depth: nat, v: Violation)
    ensures From(doc, sites + more, depth, v) <==> From(doc, sites, depth, v) || From(doc, more, depth, v)
  {
    assert forall x :: x in sites + more <==> x in sites || x in more;
  }

  lemma {:induction false} InReportAll(doc: Json, sites: seq<Site>, depth: nat, v: Violation)
    ensures v in ReportAll(doc, sites, depth) <==> From(doc, sites, depth, v)
    decreases |sites|
  {
    if sites != [] {
      var last := |sites| - 1;
      InReportAll(doc, sites[..last], depth, v);
      FromBoth(doc, sites[..last], [sites[last]], depth, v);
      assert sites == sites[..last] + [sites[last]];
      assert From(doc, [sites[last]], depth, v) <==> v in Violations(doc, sites[last], depth) by {
        assert sites[last] in [sites[last]];
      }
    }
  }

  lemma {:induction false} InReference(doc: Json, s: seq<Member>, value: Json, path: string, depth: nat, v: Violation)
    requires depth <= MAX_DEPTH
    ensures v in ReferenceReport(doc, s, value, path, depth)
       <==> v in UnresolvedOwn(doc, s, path) || From(doc, ReferenceSites(doc, s, value, path), depth + 1, v)
  {
    InReportAll(doc, ReferenceSites(doc, s, value, path), depth + 1, v);
  }

  lemma {:induction false} InObject(doc: Json, s: seq<Member>, value: Json, path: string, depth: nat, v: Violation)
    requires depth <= MAX_DEPTH
    ensures v in ObjectReport(doc, s, value, path, depth)
       <==> v in ObjectOwn(s, value, path) || From(doc, ObjectSites(s, value, path), depth + 1, v)
  {
    var properties, others := PropertiesOf(s, value, path), AdditionalOf(s, value, path);
    InReportAll(doc, properties, depth + 1, v);
    InReportAll(doc, others, depth + 1, v);
    FromBoth(doc, properties, others, depth + 1, v);
  }

  lemma {:induction false} InArray(doc: Json, s: seq<Member>, value: Json, path: string, depth: nat, v: Violation)
    requires depth <= MAX_DEPTH
    ensures v in ArrayReport(doc, s, value, path, depth)
       <==> v in CountsOwn(s, value, path) || From(doc, ItemsOf(s, value, path), depth + 1, v)
  {
    InReportAll(doc, ItemsOf(s, value, path), depth + 1, v);
  }

  lemma {:induction false} InComposition(doc: Json, s: seq<Member>, value: Json, path: string, depth: nat, v: Violation)
    requires depth <= MAX_DEPTH
    ensures v in CompositionReport(doc, s, value, path, depth)
       <==> v in CompositionOwn(doc, s, value, path, depth) || From(doc, AllOf(s, value, path), depth + 1, v)
  {
    InReportAll(doc, AllOf(s, value, path), depth + 1, v);
  }

  lemma InFour(a: seq<Violation>, b: seq<Violation>, c: seq<Violation>, d: seq<Violation>, v: Violation)
    ensures v in a + b + c + d <==> v in a || v in b || v in c || v in d
  {
  }

  lemma {:induction false} InTyped(doc: Json, s: seq<Member>, value: Json, path: string, depth: nat, v: Violation)
    requires depth <= MAX_DEPTH
    ensures v in TypedReport(doc, s, value, path, depth)
       <==> v in TypedOwn(doc, s, value, path, depth) || From(doc, TypedSites(s, value, path), depth + 1, v)
  {
    InFour(ScalarReport(s, value, path), ObjectReport(doc, s, value, path, depth),
           ArrayReport(doc, s, value, path, depth), CompositionReport(doc, s, value, path, depth), v);
    InFour(ScalarReport(s, value, path), ObjectOwn(s, value, path), CountsOwn(s, value, path),
           CompositionOwn(doc, s, value, path, depth), v);
    InObject(doc, s, value, path, depth, v);
    InArray(doc, s, value, path, depth, v);
    InComposition(doc, s, value, path, depth, v);
    FromBoth(doc, ObjectSites(s, value, path), ItemsOf(s, value, path), depth + 1, v);
    FromBoth(doc, ObjectSites(s, value, path) + ItemsOf(s, value, path), AllOf(s, value, path), depth + 1, v);
  }

  lemma {:induction false} InReport(doc: Json, site: Site, depth: nat, v: Violation)
    requires depth <= MAX_DEPTH && site.schema.Object?
    ensures v in Violations(doc, site, depth)
       <==> v in Own(doc, site, depth) || From(doc, Visited(doc, site), depth + 1, v)
  {
    var s, value, path := site.schema.members, site.value, site.path;
    InReference(doc, s, value, path, depth, v);
    InTyped(doc, s, value, path, depth, v);
    FromBoth(doc, ReferenceSites(doc, s, value, path), if TypeHolds(s, value) then TypedSites(s, value, path) else [],
             depth + 1, v);
  }

  /** Every violation is on the report, and nothing else: the report of a site lists exactly
      the failures of the nodes visited from it, each where it lies. */
  lemma {:induction false} ReportIsDue(doc: Json, site: Site, depth: nat, v: Violation)
    ensures v in Violations(doc, site, depth) <==> Due(doc, site, depth, v)
    decreases Fuel(depth), 1
  {
    if depth <= MAX_DEPTH && site.schema.Object? {
      InReport(doc, site, depth, v);
      VisitedAreDue(doc, Visited(doc, site), depth, v);
      DueUnfolds(doc, site, depth, v);
    }
  }

  lemma {:induction false} DueUnfolds(doc: Json, site: Site, depth: nat, v: Violation)
    requires depth <= MAX_DEPTH
    ensures Due(doc, site, depth, v) <==> v in Own(doc, site, depth) || DueBelow(doc, Visited(doc, site), depth, v)
  {
  }

  ghost predicate DueBelow(doc: Json, visited: seq<Site>, depth: nat, v: Violation) {
    exists below :: below in visited && Due(doc, below, depth + 1, v)
  }

  lemma {:induction false} VisitedAreDue(doc: Json, visited: seq<Site>, depth: nat, v: Violation)
    requires depth <= MAX_DEPTH
    ensures From(doc, visited, depth + 1, v) <==> DueBelow(doc, visited, depth, v)
    decreases Fuel(depth), 0
  {
    forall below | below in visited ensures v in Violations(doc, below, depth + 1) <==> Due(doc, below, depth + 1, v) {
      ReportIsDue(doc, below, depth + 1, v);
    }
  }

  // ------------------------------------------------------------- where violations lie

  /** The sites lie at or below a path, and their nodes are reached from the schema. */
  ghost predicate Below(doc: Json, s: seq<Member>, sites: seq<Site>, path: string) {
    forall below :: below in sites ==> path <= below.path && Descends(doc, s, below.schema)
  }

  lemma BothBelow(doc: Json, s: seq<Member>, sites: seq<Site>, more: seq<Site>, path: string)
    requires Below(doc, s, sites, path) && Below(doc, s, more, path)
    ensures Below(doc, s, sites + more, path)
  {
  }

  lemma SitesLieBelow(doc: Json, site: Site)
    requires site.schema.Object?
    ensures Below(doc, site.schema.members, Visited(doc, site), site.path)
  {
    var s, value, path := site.schema.members, site.value, site.path;
    assert Below(doc, s, ReferenceSites(doc, s, value, path), path);
    ObjectSitesBelow(doc, s, value, path);
    OtherKeywordSitesBelow(doc, s, value, path);
    BothBelow(doc, s, ObjectSites(s, value, path), ItemsOf(s, value, path), path);
    BothBelow(doc, s, ObjectSites(s, value, path) + ItemsOf(s, value, path), AllOf(s, value, path), path);
    BothBelow(doc, s, ReferenceSites(doc, s, value, path),
              if TypeHolds(s, value) then TypedSites(s, value, path) else [], path);
  }

  lemma ObjectSitesBelow(doc: Json, s: seq<Member>, value: Json, path: string)
    ensures Below(doc, s, ObjectSites(s, value, path), path)
  {
    if value.Object? {
      PropertySitesBelow(Listed(GetObject(s, "properties")), value.members, path);
      assert Below(doc, s, PropertiesOf(s, value, path), path);
      if Has(s, "additionalProperties") {
        OtherSitesBelow(s, Get(s, "additionalProperties").value, value.members, path);
      }
      assert Below(doc, s, AdditionalOf(s, value, path), path);
    }
  }

  lemma OtherKeywordSitesBelow(doc: Json, s: seq<Member>, value: Json, path: string)
    ensures Below(doc, s, ItemsOf(s, value, path), path) && Below(doc, s, AllOf(s, value, path), path)
  {
    if value.Array? && Has(s, "items") {
      ItemSitesBelow(Get(s, "items").value, value.items, path);
    }
    BranchSitesBelow(Listed(GetArray(s, "allOf")), value, path);
  }

  lemma {:induction false} PropertySitesBelow(properties: seq<Member>, members: seq<Member>, path: string)
    ensures forall below :: below in PropertySites(properties, members, path) ==>
              path <= below.path && exists p :: p in properties && p.value == below.schema
    decreases |properties|
  {
    if properties != [] {
      var last := |properties| - 1;
      PropertySitesBelow(properties[..last], members, path);
      assert forall x :: x in properties <==> x in properties[..last] || x == properties[last];
    }
  }

  lemma {:induction false} OtherSitesBelow(s: seq<Member>, additional: Json, members: seq<Member>, path: string)
    ensures forall below :: below in OtherSites(s, additional, members, path) ==>
              path <= below.path && below.schema == additional
    decreases |members|
  {
    if members != [] {
      OtherSitesBelow(s, additional, members[..|members| - 1], path);
    }
  }

  lemma {:induction false} ItemSitesBelow(schema: Json, items: seq<Json>, path: string)
    ensures forall below :: below in ItemSites(schema, items, path) ==> path <= below.path && below.schema == schema
    decreases |items|
  {
    if items != [] {
      ItemSitesBelow(schema, items[..|items| - 1], path);
    }
  }

  lemma {:induction false} BranchSitesBelow(branches: seq<Json>, value: Json, path: string)
    ensures forall below :: below in BranchSites(branches, value, path) ==>
              path <= below.path && below.schema in branches
    decreases |branches|
  {
    if branches != [] {
      BranchSitesBelow(branches[..|branches| - 1], value, path);
    }
  }

  /** Failures of a node itself: at the path or below it, and not that the node is no schema. */
  ghost predicate Placed(violations: seq<Violation>, path: string) {
    forall v :: v in violations ==> path <= v.path && !v.problem.NodeIsNoSchema?
  }

  lemma {:induction false} MissingPlaced(required: seq<Json>, members: seq<Member>, path: string)
    ensures Placed(MissingOwn(required, members, path), path)
    decreases |required|
  {
    if required != [] {
      MissingPlaced(required[..|required| - 1], members, path);
    }
  }

  lemma {:induction false} UnexpectedPlaced(s: seq<Member>, members: seq<Member>, path: string)
    ensures Placed(UnexpectedOwn(s, members, path), path)
    decreases |members|
  {
    if members != [] {
      UnexpectedPlaced(s, members[..|members| - 1], path);
    }
  }

  lemma BothPlaced(a: seq<Violation>, b: seq<Violation>, path: string)
    requires Placed(a, path) && Placed(b, path)
    ensures Placed(a + b, path)
  {
  }

  lemma ScalarPlaced(s: seq<Member>, value: Json, path: string)
    ensures Placed(ScalarReport(s, value, path), path)
  {
    assert Placed(ConstantsOwn(s, value, path), path);
    assert Placed(StringOwn(s, value, path), path);
    NumberPlaced(s, value, path);
    BothPlaced(ConstantsOwn(s, value, path), StringOwn(s, value, path), path);
    BothPlaced(ConstantsOwn(s, value, path) + StringOwn(s, value, path), NumberOwn(s, value, path), path);
  }

  lemma NumberPlaced(s: seq<Member>, value: Json, path: string)
    ensures Placed(NumberOwn(s, value, path), path)
  {
    if value.Number? {
      BoundsPlaced(s, AsDouble(value.number), path);
    }
  }

  lemma BoundsPlaced(s: seq<Member>, number: real, path: string)
    ensures Placed(BoundsOwn(s, number, path), path)
  {
    var min, max := GetDouble(s, "minimum"), GetDouble(s, "maximum");
    var above, below := GetDouble(s, "exclusiveMinimum"), GetDouble(s, "exclusiveMaximum");
    var minimum := When(min.Some? && !(number >= min.value), path, OutOfBounds("minimum"));
    var maximum := When(max.Some? && !(number <= max.value), path, OutOfBounds("maximum"));
    var exclusiveMinimum := When(above.Some? && !(number > above.value), path, OutOfBounds("exclusiveMinimum"));
    var exclusiveMaximum := When(below.Some? && !(number < below.value), path, OutOfBounds("exclusiveMaximum"));
    BothPlaced(minimum, maximum, path);
    BothPlaced(minimum + maximum, exclusiveMinimum, path);
    BothPlaced(minimum + maximum + exclusiveMinimum, exclusiveMaximum, path);
  }

  lemma CountsPlaced(s: seq<Member>, value: Json, path: string)
    ensures Placed(CountsOwn(s, value, path), path)
  {
  }

  lemma ObjectPlaced(s: seq<Member>, value: Json, path: string)
    ensures Placed(ObjectOwn(s, value, path), path)
  {
    if value.Object? {
      MissingPlaced(Listed(GetArray(s, "required")), value.members, path);
      UnexpectedPlaced(s, value.members, path);
    }
    BothPlaced(RequiredOwn(s, value, path), AdditionalOwn(s, value, path), path);
  }

  lemma OwnPlaced(doc: Json, site: Site, depth: nat)
    requires depth <= MAX_DEPTH && site.schema.Object?
    ensures Placed(Own(doc, site, depth), site.path)
  {
    var s, value, path := site.schema.members, site.value, site.path;
    ScalarPlaced(s, value, path);
    CountsPlaced(s, value, path);
    ObjectPlaced(s, value, path);
    assert Placed(UnresolvedOwn(doc, s, path), path);
    assert Placed(CompositionOwn(doc, s, value, path, depth), path);
    forall v | v in TypedOwn(doc, s, value, path, depth) ensures path <= v.path && !v.problem.NodeIsNoSchema? {
      InFour(ScalarReport(s, value, path), ObjectOwn(s, value, path), CountsOwn(s, value, path),
             CompositionOwn(doc, s, value, path, depth), v);
    }
    assert Placed(TypedOwn(doc, s, value, path, depth), path);
  }

  lemma {:induction false} LeafPlaced(doc: Json, site: Site, depth: nat, v: Violation)
    requires depth > MAX_DEPTH || !site.schema.Object?
    requires v in Violations(doc, site, depth)
    ensures v.path == site.path
    ensures v.problem.NodeIsNoSchema? ==> !site.schema.Object? && !site.schema.Bool?
  {
  }

  lemma OwnPlacedAt(doc: Json, site: Site, depth: nat, v: Violation, path: string)
    requires depth <= MAX_DEPTH && site.schema.Object? && v in Own(doc, site, depth) && path <= site.path
    ensures path <= v.path && !v.problem.NodeIsNoSchema?
  {
    OwnPlaced(doc, site, depth);
    FurtherBelow(path, site.path, v.path);
  }

  lemma FurtherBelow(path: string, path': string, path'': string)
    requires path <= path' <= path''
    ensures path <= path''
  {
  }

  /** A violation that is not the node's own comes from a site visited below it. */
  lemma NextSite(doc: Json, site: Site, depth: nat, v: Violation, path: string) returns (below: Site)
    requires depth <= MAX_DEPTH && site.schema.Object? && path <= site.path
    requires v in Violations(doc, site, depth) && v !in Own(doc, site, depth)
    ensures v in Violations(doc, below, depth + 1)
    ensures path <= below.path && Descends(doc, site.schema.members, below.schema)
  {
    InReport(doc, site, depth, v);
    SitesLieBelow(doc, site);
    below := SourceOf(doc, Visited(doc, site), depth + 1, v);
    FurtherBelow(path, site.path, below.path);
  }

  lemma SourceOf(doc: Json, sites: seq<Site>, depth: nat, v: Violation) returns (site: Site)
    requires From(doc, sites, depth, v)
    ensures site in sites && v in Violations(doc, site, depth)
  {
    site :| site in sites && v in Violations(doc, site, depth);
  }

  /** A violation is a failure of the node itself, or is found on the report of a site below. */
  lemma Trace(doc: Json, site: Site, depth: nat, v: Violation, path: string) returns (below: Option<Site>)
    requires v in Violations(doc, site, depth) && path <= site.path
    ensures below.None? ==> path <= v.path && (v.problem.NodeIsNoSchema? ==> !site.schema.Object? && !site.schema.Bool?)
    ensures below.Some? ==>
              && depth <= MAX_DEPTH && site.schema.Object? && path <= below.value.path
              && v in Violations(doc, below.value, depth + 1)
              && Descends(doc, site.schema.members, below.value.schema)
  {
    if depth > MAX_DEPTH || !site.schema.Object? {
      LeafPlaced(doc, site, depth, v);
      return None;
    }
    if v in Own(doc, site, depth) {
      OwnPlacedAt(doc, site, depth, v, path);
      return None;
    }
    var next := NextSite(doc, site, depth, v, path);
    return Some(next);
  }

  /** A violation names its place: below every path that the site lies below. */
  lemma {:induction false} ViolationsLieBelow(doc: Json, site: Site, depth: nat, v: Violation, path: string)
    requires v in Violations(doc, site, depth) && path <= site.path
    ensures path <= v.path
    decreases MAX_DEPTH + 1 - depth
  {
    var below := Trace(doc, site, depth, v, path);
    if below.Some? {
      ViolationsLieBelow(doc, below.value, depth + 1, v, path);
    }
  }

  /** Nodes that the validator can only leave for nodes of the same kind. */
  ghost predicate Closed(doc: Json, kind: Json -> bool) {
    && (forall node :: kind(node) ==> node.Object? || node.Bool?)
    && (forall s, child {:trigger Descends(doc, s, child)} ::
          kind(Object(s)) && Descends(doc, s, child) ==> kind(child))
  }

  lemma StaysInKind(doc: Json, node: Json, child: Json, kind: Json -> bool)
    requires Closed(doc, kind) && kind(node) && node.Object? && Descends(doc, node.members, child)
    ensures kind(child)
  {
    assert node == Object(node.members);
  }

  lemma NextInKind(doc: Json, site: Site, depth: nat, v: Violation, kind: Json -> bool)
    returns (below: Option<Site>)
    requires Closed(doc, kind) && kind(site.schema)
    requires v in Violations(doc, site, depth)
    ensures below.None? ==> !v.problem.NodeIsNoSchema?
    ensures below.Some? ==>
              depth <= MAX_DEPTH && kind(below.value.schema) && v in Violations(doc, below.value, depth + 1)
  {
    below := Trace(doc, site, depth, v, "");
    if below.Some? {
      StaysInKind(doc, site.schema, below.value.schema, kind);
    }
  }

  lemma {:induction false} ClosedNodesAreSchemas(doc: Json, site: Site, depth: nat, v: Violation, kind: Json -> bool)
    requires Closed(doc, kind) && kind(site.schema)
    requires v in Violations(doc, site, depth)
    ensures !v.problem.NodeIsNoSchema?
    decreases MAX_DEPTH + 1 - depth
  {
    var below := NextInKind(doc, site, depth, v, kind);
    if below.Some? {
      ClosedNodesAreSchemas(doc, below.value, depth + 1, v, kind);
    }
  }

  /** What the loader accepted never fails for being no schema: no node that the validator
      visits, however deep, is anything but an object or a boolean. */
  lemma {:induction false} LoadedNodesAreSchemas(doc: Json, site: Site, depth: nat, v: Violation)
    requires CheckSupported(doc).Success? && CheckSupported(site.schema).Success?
    requires v in Violations(doc, site, depth)
    ensures !v.problem.NodeIsNoSchema?
  {
    var accepted := (node: Json) => CheckSupported(node).Success?;
    forall s, child | accepted(Object(s)) && Descends(doc, s, child) ensures accepted(child) {
      DescendantChecked(doc, s, child);
    }
    ClosedNodesAreSchemas(doc, site, depth, v, accepted);
  }
}
