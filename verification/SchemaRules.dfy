// What a tool parameters schema must look like, stated on the whole tree with no
// budget and no visiting order (crates/tool-contract/src/schema.rs).
module SchemaRules {
  import opened Wrappers
  import opened Doubles
  import opened Json

  const MAX_SCHEMA_BYTES: nat := 32_768
  const MAX_SCHEMA_DEPTH: nat := 12
  const MAX_SCHEMA_NODES: nat := 512
  const MAX_SCHEMA_PROPERTIES: nat := 256
  const MAX_PROPERTIES_PER_OBJECT: nat := 64
  const MAX_PROPERTY_NAME_CHARS: nat := 64
  const MAX_DESCRIPTION_CHARS: nat := 1_024
  const MAX_ENUM_VALUES: nat := 64
  const MAX_ANY_OF_BRANCHES: nat := 4
  const MAX_PATTERN_CHARS: nat := 1_024

  const ALLOWED_KEYS: set<string> :=
    {"type", "description", "properties", "required", "additionalProperties", "items", "enum", "minimum",
     "maximum", "exclusiveMinimum", "exclusiveMaximum", "minLength", "maxLength", "pattern", "minItems",
     "maxItems", "anyOf"}

  const TYPES: set<string> := {"object", "array", "string", "number", "integer", "boolean", "null"}

  const NUMERIC_BOUNDS: set<string> := {"minimum", "maximum", "exclusiveMinimum", "exclusiveMaximum"}

  // ---------------------------------------------------------------- one node

  predicate Shape(f: Fields, root: bool) {
    && f.Keys <= ALLOWED_KEYS
    && ("description" in f ==> f["description"].Str? && |f["description"].s| <= MAX_DESCRIPTION_CHARS)
    && if "anyOf" in f then UnionShape(f, root) else TypedShape(f, root)
  }

  predicate UnionShape(f: Fields, root: bool) {
    && !root && f.Keys <= {"anyOf", "description"}
    && "anyOf" in f && f["anyOf"].Arr? && 1 <= |f["anyOf"].items| <= MAX_ANY_OF_BRANCHES
  }

  predicate TypedShape(f: Fields, root: bool) {
    && "type" in f && f["type"].Str? && f["type"].s in TYPES && (root ==> f["type"].s == "object")
    && ObjectShape(f, f["type"].s) && ArrayShape(f, f["type"].s) && ScalarShape(f, f["type"].s)
  }

  predicate ObjectShape(f: Fields, schemaType: string) {
    if schemaType != "object" then
      "properties" !in f && "required" !in f && "additionalProperties" !in f
    else
      && ("properties" in f ==>
            f["properties"].Obj? && |f["properties"].fields| <= MAX_PROPERTIES_PER_OBJECT
            && NamesFit(f["properties"].fields))
      && ("required" in f ==> f["required"].Arr? && RequiredFits(f["required"].items, Members(f, "properties")))
      && ("additionalProperties" in f ==> f["additionalProperties"].Bool?)
  }

  predicate NamesFit(properties: Fields) {
    forall name :: name in properties ==> NameFits(name)
  }

  predicate NameFits(name: string) {
    1 <= |name| <= MAX_PROPERTY_NAME_CHARS
  }

  // Every entry names a declared property, and no two name the same one.
  predicate RequiredFits(names: seq<Json>, properties: Fields) {
    && (forall i :: 0 <= i < |names| ==> names[i].Str? && names[i].s in properties)
    && Distinct(names)
  }

  predicate Distinct(s: seq<Json>) {
    forall i, j :: 0 <= i < j < |s| ==> s[i] != s[j]
  }

  predicate ArrayShape(f: Fields, schemaType: string) {
    && ("items" in f <==> schemaType == "array")
    && ("minItems" in f || "maxItems" in f ==> schemaType == "array")
    && SizesFit(Get(f, "minItems"), Get(f, "maxItems"))
  }

  predicate ScalarShape(f: Fields, schemaType: string) {
    && ("enum" in f ==>
          f["enum"].Arr? && 1 <= |f["enum"].items| <= MAX_ENUM_VALUES && Distinct(f["enum"].items)
          && forall i :: 0 <= i < |f["enum"].items| ==> MatchesType(f["enum"].items[i], schemaType))
    && (f.Keys * NUMERIC_BOUNDS != {} ==> schemaType in {"number", "integer"})
    && NumbersFit(Get(f, "minimum"), Get(f, "maximum"))
    && NumbersFit(Get(f, "exclusiveMinimum"), Get(f, "exclusiveMaximum"))
    && ("minLength" in f || "maxLength" in f || "pattern" in f ==> schemaType == "string")
    && SizesFit(Get(f, "minLength"), Get(f, "maxLength"))
    && ("pattern" in f ==> f["pattern"].Str? && |f["pattern"].s| <= MAX_PATTERN_CHARS)
  }

  // A literal of an enumeration; only scalars can be listed.
  predicate MatchesType(v: Json, schemaType: string) {
    || (schemaType == "string" && v.Str?)
    || (schemaType == "number" && v.Num?)
    || (schemaType == "integer" && v.Num? && !v.n.Float?)
    || (schemaType == "boolean" && v.Bool?)
    || (schemaType == "null" && v.Null?)
  }

  predicate SizesFit(low: Option<Json>, high: Option<Json>) {
    && (low.Some? ==> IsSize(low.value))
    && (high.Some? ==> IsSize(high.value))
    && (low.Some? && high.Some? ==> low.value.n.n <= high.value.n.n)
  }

  predicate IsSize(v: Json) {
    v.Num? && v.n.PosInt?
  }

  predicate NumbersFit(low: Option<Json>, high: Option<Json>) {
    && (low.Some? ==> low.value.Num?)
    && (high.Some? ==> high.value.Num?)
    && (low.Some? && high.Some? ==> AsDouble(low.value.n) <= AsDouble(high.value.n))
  }

  // Every pair of bounds is judged exactly up to rounding: it is accepted if and
  // only if it is in order, or its two numbers are the same 64-bit float.
  lemma BoundsAreExactUpToRounding(low: Number, high: Number)
    ensures NumbersFit(Some(Num(low)), Some(Num(high))) <==>
            ValueOf(low) <= ValueOf(high) || AsDouble(low) == AsDouble(high)
  {
    if ValueOf(low) <= ValueOf(high) {
      RoundingKeepsNumberOrder(low, high);
    } else {
      RoundingKeepsNumberOrder(high, low);
    }
  }

  // Order alone decides when no integer is large, and beside a float that is not
  // whole, however large the integer.
  lemma OrderAloneDecides(low: Number, high: Number)
    requires (IsExact(low) && IsExact(high)) || IsFractional(low) || IsFractional(high)
    ensures NumbersFit(Some(Num(low)), Some(Num(high))) <==> ValueOf(low) <= ValueOf(high)
  {
    BoundsAreExactUpToRounding(low, high);
    if !low.Float? {
      IntegersRoundToWhole(low);
    }
    if !high.Float? {
      IntegersRoundToWhole(high);
    }
  }

  predicate IsFractional(n: Number) {
    n.Float? && n.r != n.r.Floor as real
  }

  lemma IntegersRoundToWhole(n: Number)
    requires !n.Float?
    ensures AsDouble(n) == AsDouble(n).Floor as real
  {
    assert AsDouble(n) == RoundedInt(IntegerOf(n)) as real;
  }

  // Two integers, and an integer beside a float, that are accepted out of order.
  lemma LargeBoundsCanCross()
    ensures NumbersFit(Some(Num(PosInt(TWO_TO_53 + 1))), Some(Num(PosInt(TWO_TO_53))))
    ensures IsDouble(TWO_TO_53 as real)
    ensures NumbersFit(Some(Num(PosInt(TWO_TO_53 + 1))), Some(Num(Float(TWO_TO_53 as real))))
  {
    AroundTwoTo53();
  }

  // ---------------------------------------------------------------- the whole tree

  // The schemas below a node: the branches of a union, the declared
  // properties, the element schema.
  ghost predicate WellFormed(v: Json, root: bool)
    decreases v, 1
  {
    WellFormedHere(v, root)
  }

  ghost predicate WellFormedHere(v: Json, root: bool)
    decreases v, 0
  {
    && v.Obj?
    && Shape(v.fields, root)
    && (forall i :: 0 <= i < |Elements(v.fields, "anyOf")| ==> WellFormed(Elements(v.fields, "anyOf")[i], false))
    && (forall name :: name in Members(v.fields, "properties") ==>
          WellFormed(Members(v.fields, "properties")[name], false))
    && ("items" in v.fields ==> WellFormed(v.fields["items"], false))
  }

  // No node is deeper than the limit.
  ghost predicate FitsDepth(v: Json, depth: nat)
    decreases v, 1
  {
    FitsDepthHere(v, depth)
  }

  ghost predicate FitsDepthHere(v: Json, depth: nat)
    decreases v, 0
  {
    && depth <= MAX_SCHEMA_DEPTH
    && (v.Obj? ==>
          && (forall i :: 0 <= i < |Elements(v.fields, "anyOf")| ==>
                FitsDepth(Elements(v.fields, "anyOf")[i], depth + 1))
          && (forall name :: name in Members(v.fields, "properties") ==>
                FitsDepth(Members(v.fields, "properties")[name], depth + 1))
          && ("items" in v.fields ==> FitsDepth(v.fields["items"], depth + 1)))
  }

  datatype What = Nodes | Properties

  // How many schema nodes, or how many declared properties, a tree holds.
  ghost function Count(v: Json, what: What): nat
    decreases v, 1, 0
  {
    if v.Obj? then
      Own(v, what) + CountBranches(v, |Elements(v.fields, "anyOf")|, what)
      + CountMembers(v, Members(v.fields, "properties").Keys, what)
      + (if "items" in v.fields then Count(v.fields["items"], what) else 0)
    else Own(v, what)
  }

  ghost function Own(v: Json, what: What): nat {
    if what.Nodes? then 1 else if v.Obj? then |Members(v.fields, "properties")| else 0
  }

  // The first n branches of a union.
  ghost function CountBranches(v: Json, n: nat, what: What): nat
    requires v.Obj? && n <= |Elements(v.fields, "anyOf")|
    decreases v, 0, n
  {
    if n == 0 then 0
    else CountBranches(v, n - 1, what) + Count(Elements(v.fields, "anyOf")[n - 1], what)
  }

  // Some of the declared properties.
  ghost function CountMembers(v: Json, names: set<string>, what: What): nat
    requires v.Obj? && names <= Members(v.fields, "properties").Keys
    decreases v, 0, |names|
  {
    if names == {} then 0
    else
      var name :| name in names;
      Count(Members(v.fields, "properties")[name], what) + CountMembers(v, names - {name}, what)
  }

  lemma {:induction false} CountBranchesMonotone(v: Json, n: nat, what: What)
    requires v.Obj? && n <= |Elements(v.fields, "anyOf")|
    ensures CountBranches(v, n, what) <= CountBranches(v, |Elements(v.fields, "anyOf")|, what)
    decreases |Elements(v.fields, "anyOf")| - n
  {
    if n < |Elements(v.fields, "anyOf")| {
      CountBranchesMonotone(v, n + 1, what);
    }
  }

  // Which property is counted first makes no difference.
  lemma {:induction false} CountPick(v: Json, names: set<string>, name: string, what: What)
    requires v.Obj? && names <= Members(v.fields, "properties").Keys && name in names
    ensures CountMembers(v, names, what)
            == Count(Members(v.fields, "properties")[name], what) + CountMembers(v, names - {name}, what)
    decreases |names|
  {
    var first :| first in names
                 && CountMembers(v, names, what)
                    == Count(Members(v.fields, "properties")[first], what) + CountMembers(v, names - {first}, what);
    if first != name {
      CountPick(v, names - {first}, name, what);
      CountPick(v, names - {name}, first, what);
      assert names - {first} - {name} == names - {name} - {first};
    }
  }
}
