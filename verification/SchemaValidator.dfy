// The validator: one pass that spends a mutable budget and gives up at the first
// fault (crates/tool-contract/src/schema.rs:98-413).
module SchemaValidator {
  import opened Wrappers
  import opened Json
  import opened SchemaRules

  // Acceptance, stated on the tree alone.
  ghost predicate Acceptable(v: Json, depth: nat, root: bool) {
    WellFormed(v, root) && FitsDepth(v, depth)
  }

  ghost predicate AllAcceptable(s: seq<Json>, depth: nat) {
    FirstAcceptable(s, |s|, depth)
  }

  ghost predicate FirstAcceptable(s: seq<Json>, n: nat, depth: nat)
    requires n <= |s|
  {
    forall i :: 0 <= i < n ==> Acceptable(s[i], depth, false)
  }

  ghost predicate MembersAcceptable(m: Fields, depth: nat) {
    forall name :: name in m ==> NameFits(name) && Acceptable(m[name], depth, false)
  }

  class SchemaBudget {
    var nodes: nat
    var properties: nat

    constructor ()
      ensures nodes == 0 && properties == 0
    {
      nodes, properties := 0, 0;
    }

    ghost predicate Valid()
      reads this
    {
      nodes <= MAX_SCHEMA_NODES && properties <= MAX_SCHEMA_PROPERTIES
    }

    ghost predicate Affords(nodeCount: nat, propertyCount: nat)
      reads this
    {
      nodes + nodeCount <= MAX_SCHEMA_NODES && properties + propertyCount <= MAX_SCHEMA_PROPERTIES
    }

    twostate predicate Spent(nodeCount: nat, propertyCount: nat)
      reads this
    {
      nodes == old(nodes) + nodeCount && properties == old(properties) + propertyCount
    }
  }

  method ValidateToolSchema(schema: Json, serializedBytes: nat) returns (ok: bool)
    ensures ok <==> serializedBytes <= 32_768 && Acceptable(schema, 0, true)
                    && Count(schema, Nodes) <= 512 && Count(schema, Properties) <= 256
  {
    if serializedBytes > MAX_SCHEMA_BYTES {
      return false;
    }
    var budget := new SchemaBudget();
    ok := ValidateNode(schema, 0, true, budget);
  }

  method ValidateNode(value: Json, depth: nat, root: bool, budget: SchemaBudget) returns (ok: bool)
    requires budget.Valid()
    modifies budget
    ensures ok <==> Acceptable(value, depth, root)
                    && old(budget.Affords(Count(value, Nodes), Count(value, Properties)))
    ensures ok ==> budget.Valid() && budget.Spent(Count(value, Nodes), Count(value, Properties))
    decreases value, 4
  {
    EveryNodeCounts(value, depth, root);
    if depth > MAX_SCHEMA_DEPTH {
      return false;
    }
    budget.nodes := budget.nodes + 1;
    if budget.nodes > MAX_SCHEMA_NODES || !value.Obj? {
      return false;
    }
    NodeDecides(value, depth, root);
    var keywords := value.fields;
    if !(keywords.Keys <= ALLOWED_KEYS) {
      return false;
    }
    if "description" in keywords {
      if !keywords["description"].Str? || |keywords["description"].s| > MAX_DESCRIPTION_CHARS {
        return false;
      }
    }
    if "anyOf" in keywords {
      ok := ValidateUnion(value, root, depth, budget);
    } else {
      ok := ValidateTyped(value, root, depth, budget);
    }
  }

  lemma EveryNodeCounts(value: Json, depth: nat, root: bool)
    ensures Count(value, Nodes) >= 1
    ensures Acceptable(value, depth, root) ==> value.Obj? && depth <= MAX_SCHEMA_DEPTH
  {
    assert WellFormed(value, root) <==> WellFormedHere(value, root);
    assert FitsDepth(value, depth) <==> FitsDepthHere(value, depth);
  }

  // What acceptance of a node comes to, keyword by keyword.
  ghost predicate ChildrenAcceptable(value: Json, depth: nat)
    requires value.Obj?
  {
    && AllAcceptable(Elements(value.fields, "anyOf"), depth)
    && (forall name :: name in Members(value.fields, "properties") ==>
          Acceptable(Members(value.fields, "properties")[name], depth, false))
    && ("items" in value.fields ==> Acceptable(value.fields["items"], depth, false))
  }

  lemma NodeDecides(value: Json, depth: nat, root: bool)
    requires value.Obj?
    ensures Acceptable(value, depth, root) <==>
            depth <= MAX_SCHEMA_DEPTH && Shape(value.fields, root) && ChildrenAcceptable(value, depth + 1)
    ensures Count(value, Nodes) == 1 + BranchCost(value, Nodes) + PropertyCost(value, Nodes) + ItemCost(value, Nodes)
    ensures Count(value, Properties)
            == BranchCost(value, Properties) + PropertyCost(value, Properties) + ItemCost(value, Properties)
  {
    assert WellFormed(value, root) <==> WellFormedHere(value, root);
    assert FitsDepth(value, depth) <==> FitsDepthHere(value, depth);
  }

  // A node with "anyOf".
  method ValidateUnion(value: Json, root: bool, depth: nat, budget: SchemaBudget) returns (ok: bool)
    requires budget.Valid() && value.Obj? && "anyOf" in value.fields
    modifies budget
    ensures ok <==> UnionShape(value.fields, root) && AllAcceptable(Elements(value.fields, "anyOf"), depth + 1)
                    && old(budget.Affords(BranchCost(value, Nodes), BranchCost(value, Properties)))
    ensures ok ==> budget.Valid() && budget.Spent(BranchCost(value, Nodes), BranchCost(value, Properties))
    decreases value, 2
  {
    var keywords := value.fields;
    if root || !(keywords.Keys <= {"anyOf", "description"}) || !keywords["anyOf"].Arr? {
      return false;
    }
    var branches := keywords["anyOf"].items;
    if !(1 <= |branches| <= MAX_ANY_OF_BRANCHES) {
      return false;
    }
    ok := ValidateBranches(value, branches, depth, budget);
  }

  // A node with "type".
  method ValidateTyped(value: Json, root: bool, depth: nat, budget: SchemaBudget) returns (ok: bool)
    requires budget.Valid() && value.Obj?
    modifies budget
    ensures ok <==> TypedShape(value.fields, root)
                    && MembersAcceptable(Members(value.fields, "properties"), depth + 1)
                    && ("items" in value.fields ==> Acceptable(value.fields["items"], depth + 1, false))
                    && old(budget.Affords(PropertyCost(value, Nodes) + ItemCost(value, Nodes),
                                          PropertyCost(value, Properties) + ItemCost(value, Properties)))
    ensures ok ==> budget.Valid()
                   && budget.Spent(PropertyCost(value, Nodes) + ItemCost(value, Nodes),
                                   PropertyCost(value, Properties) + ItemCost(value, Properties))
    decreases value, 3
  {
    var keywords := value.fields;
    if "type" !in keywords || !keywords["type"].Str? {
      return false;
    }
    var schemaType := keywords["type"].s;
    if schemaType !in TYPES || (root && schemaType != "object") {
      return false;
    }
    ok := ValidateObjectKeywords(value, schemaType, depth, budget);
    if !ok {
      return;
    }
    ok := ValidateArrayKeywords(value, schemaType, depth, budget);
    if !ok {
      return;
    }
    ok := ValidateScalarKeywords(keywords, schemaType);
  }

  // The loop over the branches of a union.
  method ValidateBranches(value: Json, branches: seq<Json>, depth: nat, budget: SchemaBudget) returns (ok: bool)
    requires budget.Valid()
    requires value.Obj? && branches == Elements(value.fields, "anyOf")
    modifies budget
    ensures ok <==> AllAcceptable(branches, depth + 1)
                    && old(budget.Affords(CountBranches(value, |branches|, Nodes),
                                          CountBranches(value, |branches|, Properties)))
    ensures ok ==> budget.Valid()
                   && budget.Spent(CountBranches(value, |branches|, Nodes),
                                   CountBranches(value, |branches|, Properties))
    decreases value, 1
  {
    for i := 0 to |branches|
      invariant budget.Valid() && FirstAcceptable(branches, i, depth + 1)
      invariant budget.Spent(CountBranches(value, i, Nodes), CountBranches(value, i, Properties))
    {
      CountBranchesMonotone(value, i + 1, Nodes);
      CountBranchesMonotone(value, i + 1, Properties);
      assert branches[i] < value;
      ok := ValidateNode(branches[i], depth + 1, false, budget);
      if !ok {
        return;
      }
    }
    ok := true;
  }

  // The loop over the declared properties, in whatever order the map yields them.
  method ValidateProperties(value: Json, properties: Fields, depth: nat, budget: SchemaBudget) returns (ok: bool)
    requires budget.Valid()
    requires value.Obj? && properties == Members(value.fields, "properties")
    modifies budget
    ensures ok <==> MembersAcceptable(properties, depth + 1)
                    && old(budget.Affords(CountMembers(value, properties.Keys, Nodes),
                                          CountMembers(value, properties.Keys, Properties)))
    ensures ok ==> budget.Valid()
                   && budget.Spent(CountMembers(value, properties.Keys, Nodes),
                                   CountMembers(value, properties.Keys, Properties))
    decreases value, 1
  {
    var left := properties.Keys;
    while left != {}
      invariant budget.Valid() && left <= properties.Keys
      invariant forall name :: name in properties && name !in left ==>
                  NameFits(name) && Acceptable(properties[name], depth + 1, false)
      invariant budget.nodes + CountMembers(value, left, Nodes)
                == old(budget.nodes) + CountMembers(value, properties.Keys, Nodes)
      invariant budget.properties + CountMembers(value, left, Properties)
                == old(budget.properties) + CountMembers(value, properties.Keys, Properties)
      decreases |left|
    {
      var name :| name in left;
      CountPick(value, left, name, Nodes);
      CountPick(value, left, name, Properties);
      if !NameFits(name) {
        return false;
      }
      assert properties[name] < value;
      ok := ValidateNode(properties[name], depth + 1, false, budget);
      if !ok {
        return;
      }
      left := left - {name};
    }
    ok := true;
  }

  // What the schemas below a node cost, by the keyword that holds them.
  ghost function BranchCost(value: Json, what: What): nat
    requires value.Obj?
  {
    CountBranches(value, |Elements(value.fields, "anyOf")|, what)
  }

  ghost function PropertyCost(value: Json, what: What): nat
    requires value.Obj?
  {
    CountMembers(value, Members(value.fields, "properties").Keys, what)
    + if what.Properties? then |Members(value.fields, "properties")| else 0
  }

  ghost function ItemCost(value: Json, what: What): nat
    requires value.Obj?
  {
    if "items" in value.fields then Count(value.fields["items"], what) else 0
  }

  method ValidateObjectKeywords(value: Json, schemaType: string, depth: nat, budget: SchemaBudget)
    returns (ok: bool)
    requires budget.Valid() && value.Obj?
    modifies budget
    ensures ok <==> ObjectShape(value.fields, schemaType)
                    && MembersAcceptable(Members(value.fields, "properties"), depth + 1)
                    && old(budget.Affords(PropertyCost(value, Nodes), PropertyCost(value, Properties)))
    ensures ok ==> budget.Valid()
                   && budget.Spent(PropertyCost(value, Nodes), PropertyCost(value, Properties))
    decreases value, 2
  {
    var keywords := value.fields;
    if schemaType != "object" {
      ok := "properties" !in keywords && "required" !in keywords && "additionalProperties" !in keywords;
      return;
    }
    var properties := Members(keywords, "properties");
    if "properties" in keywords {
      if !keywords["properties"].Obj? || |properties| > MAX_PROPERTIES_PER_OBJECT {
        return false;
      }
      budget.properties := budget.properties + |properties|;
      if budget.properties > MAX_SCHEMA_PROPERTIES {
        return false;
      }
      ok := ValidateProperties(value, properties, depth, budget);
      if !ok {
        return;
      }
    }
    if "required" in keywords {
      if !keywords["required"].Arr? {
        return false;
      }
      ok := ValidateRequired(keywords["required"].items, properties);
      if !ok {
        return;
      }
    }
    ok := "additionalProperties" in keywords ==> keywords["additionalProperties"].Bool?;
  }

  // The loop over the required names.
  method ValidateRequired(names: seq<Json>, properties: Fields) returns (ok: bool)
    ensures ok <==> RequiredFits(names, properties)
  {
    var seen: set<string> := {};
    for i := 0 to |names|
      invariant RequiredFits(names[..i], properties)
      invariant forall name :: name in seen <==> Str(name) in names[..i]
    {
      if !names[i].Str? {
        return false;
      }
      var name := names[i].s;
      if name in seen {
        assert Str(name) in names[..i];
        var j :| 0 <= j < i && names[j] == Str(name);
        return false;
      }
      seen := seen + {name};
      if name !in properties {
        return false;
      }
    }
    ok := true;
  }

  method ValidateArrayKeywords(value: Json, schemaType: string, depth: nat, budget: SchemaBudget)
    returns (ok: bool)
    requires budget.Valid() && value.Obj?
    modifies budget
    ensures ok <==> ArrayShape(value.fields, schemaType)
                    && ("items" in value.fields ==> Acceptable(value.fields["items"], depth + 1, false))
                    && old(budget.Affords(ItemCost(value, Nodes), ItemCost(value, Properties)))
    ensures ok ==> budget.Valid()
                   && budget.Spent(ItemCost(value, Nodes), ItemCost(value, Properties))
    decreases value, 2
  {
    var keywords := value.fields;
    if schemaType == "array" {
      if "items" !in keywords {
        return false;
      }
      ok := ValidateNode(keywords["items"], depth + 1, false, budget);
      if !ok {
        return;
      }
    } else if "items" in keywords {
      return false;
    }
    if ("minItems" in keywords || "maxItems" in keywords) && schemaType != "array" {
      return false;
    }
    ok := SizesFit(Get(keywords, "minItems"), Get(keywords, "maxItems"));
  }

  method ValidateScalarKeywords(keywords: Fields, schemaType: string) returns (ok: bool)
    ensures ok <==> ScalarShape(keywords, schemaType)
  {
    if "enum" in keywords {
      if !keywords["enum"].Arr? || !(1 <= |keywords["enum"].items| <= MAX_ENUM_VALUES) {
        return false;
      }
      ok := ValidateEnum(keywords["enum"].items, schemaType);
      if !ok {
        return;
      }
    }
    if keywords.Keys * NUMERIC_BOUNDS != {} && schemaType !in {"number", "integer"} {
      return false;
    }
    if !NumbersFit(Get(keywords, "minimum"), Get(keywords, "maximum"))
       || !NumbersFit(Get(keywords, "exclusiveMinimum"), Get(keywords, "exclusiveMaximum")) {
      return false;
    }
    if ("minLength" in keywords || "maxLength" in keywords || "pattern" in keywords) && schemaType != "string" {
      return false;
    }
    if !SizesFit(Get(keywords, "minLength"), Get(keywords, "maxLength")) {
      return false;
    }
    ok := "pattern" in keywords ==>
            keywords["pattern"].Str? && |keywords["pattern"].s| <= MAX_PATTERN_CHARS;
  }

  // The loop over the listed values; two values print alike exactly when they
  // are the same scalar.
  method ValidateEnum(values: seq<Json>, schemaType: string) returns (ok: bool)
    ensures ok <==> Distinct(values) && forall i :: 0 <= i < |values| ==> MatchesType(values[i], schemaType)
  {
    var unique: set<Json> := {};
    for i := 0 to |values|
      invariant Distinct(values[..i]) && forall j :: 0 <= j < i ==> MatchesType(values[j], schemaType)
      invariant forall v :: v in unique <==> v in values[..i]
    {
      if !MatchesType(values[i], schemaType) {
        return false;
      }
      if values[i] in unique {
        assert values[i] in values[..i];
        var j :| 0 <= j < i && values[j] == values[i];
        return false;
      }
      unique := unique + {values[i]};
    }
    ok := true;
  }
}
