// What the rules and the clean-up come to, said over again without them: which keywords a node of each type may
// carry and with which values, how deep a tree may be, and which values are left alone by the clean-up.
module SchemaExact {
  import opened Wrappers
  import opened Doubles
  import opened Json
  import opened SchemaRules
  import opened SchemaCleanup
  import opened SchemaMeaning

  // ---------------------------------------------------------------- sizes

  predicate IsUnsigned(v: Json) {
    v.Num? && v.n.PosInt?
  }

  /** Two size bounds are accepted together if and only if both are unsigned integers and some size lies between
      them, that is, if and only if the first is at most the second. */
  lemma SizesAreExact(f: Fields, low: string, high: string)
    ensures low !in f && high !in f ==> SizesFit(Get(f, low), Get(f, high))
    ensures low in f && high !in f ==> (SizesFit(Get(f, low), Get(f, high)) <==> IsUnsigned(f[low]))
    ensures low !in f && high in f ==> (SizesFit(Get(f, low), Get(f, high)) <==> IsUnsigned(f[high]))
    ensures low in f && high in f ==>
      (SizesFit(Get(f, low), Get(f, high)) <==>
       IsUnsigned(f[low]) && IsUnsigned(f[high]) && ValueOf(f[low].n) <= ValueOf(f[high].n))
    ensures low in f && high in f ==>
      (SizesFit(Get(f, low), Get(f, high)) <==>
       IsUnsigned(f[low]) && IsUnsigned(f[high]) && exists size: nat :: SizeHolds(f, low, high, size))
  {
    if low in f && high in f && IsUnsigned(f[low]) && IsUnsigned(f[high]) {
      if ValueOf(f[low].n) <= ValueOf(f[high].n) {
        assert SizeHolds(f, low, high, f[low].n.n);
      }
    }
  }

  // A literal listed for a type is an instance of that type, and a scalar; an integer must be written as one.
  lemma LiteralsMatchExactly(v: Json, schemaType: string)
    requires schemaType in TYPES
    ensures MatchesType(v, schemaType) <==>
            && HasType(v, schemaType) && !v.Arr? && !v.Obj?
            && (schemaType == "integer" ==> !v.n.Float?)
  {
  }

  // ---------------------------------------------------------------- nodes, keyword by keyword

  function KeywordsOf(schemaType: string): set<string> {
    match schemaType
    case "object" => {"type", "description", "properties", "required", "additionalProperties"}
    case "array" => {"type", "description", "items", "minItems", "maxItems"}
    case "string" => {"type", "description", "enum", "minLength", "maxLength", "pattern"}
    case "number" => {"type", "description", "enum", "minimum", "maximum", "exclusiveMinimum", "exclusiveMaximum"}
    case "integer" => {"type", "description", "enum", "minimum", "maximum", "exclusiveMinimum", "exclusiveMaximum"}
    case "boolean" => {"type", "description", "enum"}
    case "null" => {"type", "description", "enum"}
    case _ => {}
  }

  predicate IsText(f: Fields, key: string, limit: nat) {
    key in f ==> f[key].Str? && |f[key].s| <= limit
  }

  predicate IsList(f: Fields, key: string, least: nat, most: nat) {
    key in f && f[key].Arr? && least <= |f[key].items| <= most
  }

  // The value of each keyword of an object.
  ghost predicate ObjectValuesFit(f: Fields) {
    && ("properties" in f ==>
          f["properties"].Obj? && |f["properties"].fields| <= 64
          && forall name :: name in f["properties"].fields ==> 0 < |name| <= 64)
    && ("required" in f ==>
          f["required"].Arr?
          && (forall x :: x in f["required"].items ==> x.Str? && x.s in Members(f, "properties"))
          && forall i, j :: 0 <= i < j < |f["required"].items| ==> f["required"].items[i] != f["required"].items[j])
    && ("additionalProperties" in f ==> f["additionalProperties"] in {Bool(true), Bool(false)})
  }

  ghost predicate ListedFit(f: Fields, schemaType: string) {
    "enum" in f ==>
      && IsList(f, "enum", 1, 64)
      && (forall x :: x in f["enum"].items ==> HasType(x, schemaType) && !(schemaType == "integer" && x.n.Float?))
      && forall i, j :: 0 <= i < j < |f["enum"].items| ==> f["enum"].items[i] != f["enum"].items[j]
  }

  // Bounds are numbers, and some size or, up to rounding, some number meets both.
  ghost predicate BoundsFit(f: Fields) {
    && (forall k :: k in f && k in {"minItems", "maxItems", "minLength", "maxLength"} ==> IsUnsigned(f[k]))
    && (exists size: nat :: SizeHolds(f, "minItems", "maxItems", size))
    && (exists size: nat :: SizeHolds(f, "minLength", "maxLength", size))
    && (forall k :: k in f && k in {"minimum", "maximum", "exclusiveMinimum", "exclusiveMaximum"} ==> f[k].Num?)
    && InOrder(f, "minimum", "maximum") && InOrder(f, "exclusiveMinimum", "exclusiveMaximum")
  }

  predicate InOrder(f: Fields, low: string, high: string) {
    low in f && high in f ==>
      && f[low].Num? && f[high].Num?
      && (ValueOf(f[low].n) <= ValueOf(f[high].n) || AsDouble(f[low].n) == AsDouble(f[high].n))
  }

  ghost predicate NodeFits(f: Fields, root: bool) {
    && IsText(f, "description", 1024)
    && if "anyOf" in f then
         !root && f.Keys <= {"anyOf", "description"} && IsList(f, "anyOf", 1, 4)
       else
         && "type" in f && f["type"].Str?
         && var t := f["type"].s;
            && f.Keys <= KeywordsOf(t) && (root ==> t == "object") && (t == "array" ==> "items" in f)
            && ObjectValuesFit(f) && ListedFit(f, t) && BoundsFit(f) && IsText(f, "pattern", 1024)
  }

  lemma SizesMean(f: Fields, low: string, high: string)
    ensures SizesFit(Get(f, low), Get(f, high)) <==>
            && (low in f ==> IsUnsigned(f[low])) && (high in f ==> IsUnsigned(f[high]))
            && exists size: nat :: SizeHolds(f, low, high, size)
  {
    SizesAreExact(f, low, high);
    if low !in f {
      assert SizeHolds(f, low, high, 0) || (high in f && !IsUnsigned(f[high]));
    } else if high !in f && IsUnsigned(f[low]) {
      assert SizeHolds(f, low, high, f[low].n.n);
    }
  }

  lemma NumbersMean(f: Fields, low: string, high: string)
    ensures NumbersFit(Get(f, low), Get(f, high)) <==>
            (low in f ==> f[low].Num?) && (high in f ==> f[high].Num?) && InOrder(f, low, high)
  {
    if low in f && high in f && f[low].Num? && f[high].Num? {
      BoundsAreExactUpToRounding(f[low].n, f[high].n);
    }
  }

  lemma BoundsMean(f: Fields)
    ensures BoundsFit(f) <==>
            && SizesFit(Get(f, "minItems"), Get(f, "maxItems")) && SizesFit(Get(f, "minLength"), Get(f, "maxLength"))
            && NumbersFit(Get(f, "minimum"), Get(f, "maximum"))
            && NumbersFit(Get(f, "exclusiveMinimum"), Get(f, "exclusiveMaximum"))
  {
    SizesMean(f, "minItems", "maxItems");
    SizesMean(f, "minLength", "maxLength");
    NumbersMean(f, "minimum", "maximum");
    NumbersMean(f, "exclusiveMinimum", "exclusiveMaximum");
  }

  lemma ListedMean(f: Fields, schemaType: string)
    requires schemaType in TYPES
    ensures "enum" in f ==>
      (ListedFit(f, schemaType) && schemaType !in {"object", "array"} <==>
       && f["enum"].Arr? && 1 <= |f["enum"].items| <= MAX_ENUM_VALUES && Distinct(f["enum"].items)
       && forall i :: 0 <= i < |f["enum"].items| ==> MatchesType(f["enum"].items[i], schemaType))
  {
    if "enum" in f && f["enum"].Arr? && |f["enum"].items| > 0 {
      forall x: Json
        ensures MatchesType(x, schemaType) <==>
                HasType(x, schemaType) && !(schemaType == "integer" && x.n.Float?)
                && schemaType !in {"object", "array"}
      {
      }
      assert f["enum"].items[0] in f["enum"].items;
    }
  }

  lemma ObjectMeans(f: Fields)
    ensures ObjectValuesFit(f) <==> ObjectShape(f, "object")
  {
    if "required" in f && f["required"].Arr? {
      var names := f["required"].items;
      assert (forall x :: x in names ==> x.Str? && x.s in Members(f, "properties")) <==>
             (forall i :: 0 <= i < |names| ==> names[i].Str? && names[i].s in Members(f, "properties"));
    }
    if "properties" in f && f["properties"].Obj? {
      assert forall name :: name in f["properties"].fields ==> (NameFits(name) <==> 0 < |name| <= 64);
    }
  }

  // The keywords that each group of checks lets a type carry.
  lemma KeywordsMean(f: Fields, t: string)
    requires t in TYPES && f.Keys <= ALLOWED_KEYS && "anyOf" !in f
    ensures f.Keys <= KeywordsOf(t) <==>
            && (t != "object" ==> "properties" !in f && "required" !in f && "additionalProperties" !in f)
            && (t != "array" ==> "items" !in f && "minItems" !in f && "maxItems" !in f)
            && (t !in {"number", "integer"} ==> f.Keys * NUMERIC_BOUNDS == {})
            && (t != "string" ==> "minLength" !in f && "maxLength" !in f && "pattern" !in f)
            && (t in {"object", "array"} ==> "enum" !in f)
  {
  }

  lemma TypedMeans(f: Fields, root: bool)
    requires f.Keys <= ALLOWED_KEYS && "anyOf" !in f && "type" in f && f["type"].Str? && f["type"].s in TYPES
    ensures TypedShape(f, root) <==>
            var t := f["type"].s;
            && f.Keys <= KeywordsOf(t) && (root ==> t == "object") && (t == "array" ==> "items" in f)
            && ObjectValuesFit(f) && ListedFit(f, t) && BoundsFit(f) && IsText(f, "pattern", 1024)
  {
    var t := f["type"].s;
    KeywordsMean(f, t);
    ObjectMeans(f);
    ListedMean(f, t);
    BoundsMean(f);
  }

  lemma OnlyKnownKeywords(t: string)
    ensures KeywordsOf(t) <= ALLOWED_KEYS
    ensures t !in TYPES ==> KeywordsOf(t) == {}
  {
  }

  /** A node is as it must be if and only if it carries the keywords of its type and no others, each with a value
      that fits, and nothing that no instance could meet: its sizes leave room for some size, and its numeric
      bounds are in order or the same float. */
  lemma ShapeIsByKeyword(f: Fields, root: bool)
    ensures Shape(f, root) <==> NodeFits(f, root)
  {
    if "anyOf" !in f && "type" in f && f["type"].Str? {
      OnlyKnownKeywords(f["type"].s);
      if f.Keys <= ALLOWED_KEYS && f["type"].s in TYPES {
        TypedMeans(f, root);
      }
    }
  }

  /** A whole schema is well formed if and only if its node is, and the schemas below it are. */
  lemma WellFormedByKeyword(v: Json, root: bool)
    ensures WellFormed(v, root) <==>
            && v.Obj? && NodeFits(v.fields, root)
            && (forall x :: x in Elements(v.fields, "anyOf") ==> WellFormed(x, false))
            && (forall x :: x in Members(v.fields, "properties").Values ==> WellFormed(x, false))
            && ("items" in v.fields ==> WellFormed(v.fields["items"], false))
  {
    assert WellFormed(v, root) == WellFormedHere(v, root);
    if v.Obj? {
      ShapeIsByKeyword(v.fields, root);
      var branches, properties := Elements(v.fields, "anyOf"), Members(v.fields, "properties");
      assert (forall i :: 0 <= i < |branches| ==> WellFormed(branches[i], false)) <==>
             (forall x :: x in branches ==> WellFormed(x, false));
      assert (forall name :: name in properties ==> WellFormed(properties[name], false)) <==>
             (forall x :: x in properties.Values ==> WellFormed(x, false));
    }
  }

  // A node with two bounds put in.
  function Bound(f: Fields, low: string, a: nat, high: string, b: nat): Fields {
    f[low := Num(PosInt(a))][high := Num(PosInt(b))]
  }

  lemma BoundIsMet(f: Fields, low: string, a: nat, high: string, b: nat)
    requires low != high
    ensures var g := Bound(f, low, a, high, b);
      SizesFit(Get(g, low), Get(g, high)) <==> a <= b
  {
    SizesAreExact(Bound(f, low, a, high, b), low, high);
  }

  /** Put on a well-formed string schema, a length of at least a and at most b is accepted if and only if a is at
      most b; and the same holds of the sizes of an array schema. */
  lemma BoundsDecide(f: Fields, root: bool, a: nat, b: nat)
    requires WellFormed(Obj(f), root) && "type" in f
    ensures f["type"] == Str("string") ==>
      (WellFormed(Obj(Bound(f, "minLength", a, "maxLength", b)), root) <==> a <= b)
    ensures f["type"] == Str("array") ==>
      (WellFormed(Obj(Bound(f, "minItems", a, "maxItems", b)), root) <==> a <= b)
  {
    assert WellFormed(Obj(f), root) == WellFormedHere(Obj(f), root);
    if f["type"] == Str("string") {
      BoundsDecideHere(f, root, "minLength", a, "maxLength", b);
    } else if f["type"] == Str("array") {
      BoundsDecideHere(f, root, "minItems", a, "maxItems", b);
    }
  }

  lemma BoundsDecideHere(f: Fields, root: bool, low: string, a: nat, high: string, b: nat)
    requires WellFormedHere(Obj(f), root) && "type" in f && low != high
    requires || (f["type"] == Str("string") && low == "minLength" && high == "maxLength")
             || (f["type"] == Str("array") && low == "minItems" && high == "maxItems")
    ensures WellFormed(Obj(Bound(f, low, a, high, b)), root) <==> a <= b
  {
    var g := Bound(f, low, a, high, b);
    var v, w := Obj(f), Obj(g);
    BoundIsMet(f, low, a, high, b);
    assert forall k :: k != low && k != high ==> Get(g, k) == Get(f, k);
    assert Elements(g, "anyOf") == Elements(f, "anyOf") && Members(g, "properties") == Members(f, "properties");
    assert WellFormed(w, root) == WellFormedHere(w, root);
    assert g.Keys == f.Keys + {low, high};
    BoundedShape(f, g, root, low, a, high, b);
  }

  lemma BoundedShape(f: Fields, g: Fields, root: bool, low: string, a: nat, high: string, b: nat)
    requires Shape(f, root) && "type" in f && g == Bound(f, low, a, high, b) && low != high
    requires g.Keys == f.Keys + {low, high}
    requires SizesFit(Get(g, low), Get(g, high)) <==> a <= b
    requires || (f["type"] == Str("string") && low == "minLength" && high == "maxLength")
             || (f["type"] == Str("array") && low == "minItems" && high == "maxItems")
    ensures Shape(g, root) <==> a <= b
  {
    assert g.Keys * NUMERIC_BOUNDS == f.Keys * NUMERIC_BOUNDS;
  }

  // ---------------------------------------------------------------- depth

  // The schemas directly below a node.
  ghost predicate IsBelow(v: Json, x: Json) {
    v.Obj?
    && (|| x in Elements(v.fields, "anyOf")
        || (exists name :: name in Members(v.fields, "properties") && x == Members(v.fields, "properties")[name])
        || ("items" in v.fields && x == v.fields["items"]))
  }

  // Some chain of n steps leads down from the node.
  ghost predicate Reaches(v: Json, n: nat)
    decreases n
  {
    n == 0 || exists x :: IsBelow(v, x) && Reaches(x, n - 1)
  }

  lemma {:induction false} ReachesNoDeeper(v: Json, depth: nat, n: nat)
    requires FitsDepth(v, depth) && Reaches(v, n)
    ensures depth + n <= 12
    decreases n
  {
    assert FitsDepth(v, depth) == FitsDepthHere(v, depth);
    if n > 0 {
      var x :| IsBelow(v, x) && Reaches(x, n - 1);
      BelowFits(v, x, depth);
      ReachesNoDeeper(x, depth + 1, n - 1);
    }
  }

  lemma BelowFits(v: Json, x: Json, depth: nat)
    requires FitsDepthHere(v, depth) && IsBelow(v, x)
    ensures FitsDepth(x, depth + 1)
  {
    if x in Elements(v.fields, "anyOf") {
      var i :| 0 <= i < |Elements(v.fields, "anyOf")| && Elements(v.fields, "anyOf")[i] == x;
    }
  }

  ghost predicate ReachesWithin(v: Json, depth: nat) {
    forall n: nat :: Reaches(v, n) ==> depth + n <= 12
  }

  lemma BelowReaches(v: Json, x: Json, depth: nat)
    requires ReachesWithin(v, depth) && IsBelow(v, x)
    ensures ReachesWithin(x, depth + 1)
  {
    forall n: nat | Reaches(x, n) ensures depth + 1 + n <= 12 {
      var m := n + 1;
      assert IsBelow(v, x) && Reaches(x, m - 1);
      assert Reaches(v, m);
    }
  }

  /** A tree fits the depth limit if and only if no chain of steps down from its root is longer than what is left. */
  lemma {:induction false} DepthIsTheLongestChain(v: Json, depth: nat)
    ensures FitsDepth(v, depth) <==> ReachesWithin(v, depth)
    decreases v
  {
    assert FitsDepth(v, depth) == FitsDepthHere(v, depth);
    if FitsDepth(v, depth) {
      forall n: nat | Reaches(v, n) ensures depth + n <= 12 {
        ReachesNoDeeper(v, depth, n);
      }
    }
    if ReachesWithin(v, depth) {
      assert Reaches(v, 0);
      if v.Obj? {
        ChainsBelow(v, depth);
      }
    }
  }

  lemma {:induction false} ChainsBelow(v: Json, depth: nat)
    requires v.Obj? && ReachesWithin(v, depth) && depth <= 12
    ensures FitsDepthHere(v, depth)
    decreases v, 0
  {
    var branches, properties := Elements(v.fields, "anyOf"), Members(v.fields, "properties");
    forall i | 0 <= i < |branches| ensures FitsDepth(branches[i], depth + 1) {
      assert branches[i] < v;
      BelowReaches(v, branches[i], depth);
      DepthIsTheLongestChain(branches[i], depth + 1);
    }
    forall name | name in properties ensures FitsDepth(properties[name], depth + 1) {
      assert properties[name] < v;
      BelowReaches(v, properties[name], depth);
      DepthIsTheLongestChain(properties[name], depth + 1);
    }
    if "items" in v.fields {
      BelowReaches(v, v.fields["items"], depth);
      DepthIsTheLongestChain(v.fields["items"], depth + 1);
    }
  }

  // ---------------------------------------------------------------- what the clean-up leaves

  // A type list of null and one other type, in either order.
  predicate IsNullableList(v: Json) {
    v.Arr? && |v.items| == 2
    && v.items[0].Str? && v.items[1].Str? && v.items[0] != v.items[1] && Str("null") in v.items
  }

  // Nothing is left to clean anywhere.
  ghost predicate IsClean(v: Json)
    decreases v
  {
    match v
    case Obj(f) =>
      && f.Keys !! {"$schema", "title", "default", "examples", "format"}
      && !("type" in f && IsNullableList(f["type"]))
      && forall k :: k in f ==> IsClean(f[k])
    case Arr(items) => forall i :: 0 <= i < |items| ==> IsClean(items[i])
    case _ => true
  }

  lemma NullableIsTheList(f: Fields)
    ensures Nullable(f) <==> "type" in f && IsNullableList(f["type"])
  {
  }

  lemma {:induction false} CleanStays(v: Json)
    requires IsClean(v)
    ensures Cleaned(v) == v
    decreases v
  {
    match v
    case Obj(f) =>
      forall k | k in f ensures Cleaned(f[k]) == f[k] {
        assert f[k] < v;
        CleanStays(f[k]);
      }
      NullableIsTheList(f);
      CleanedObject(f);
      assert f - METADATA_KEYS == f;
      EntriesAreFixed(f);
    case Arr(items) =>
      forall i | 0 <= i < |items| ensures Cleaned(items[i]) == items[i] {
        assert items[i] < v;
        CleanStays(items[i]);
      }
      CleanedArray(items);
      assert CleanedItems(items) == items;
    case _ =>
  }

  lemma NormalizedIsClean(c: Fields)
    requires c.Keys !! METADATA_KEYS && forall k :: k in c ==> IsClean(c[k])
    ensures IsClean(Obj(Normalized(c)))
  {
    NullableIsTheList(c);
    if Nullable(c) {
      var typed := Typed(c);
      assert IsClean(typed["type"]);
      assert IsClean(Obj(typed));
      assert IsClean(NULL_SCHEMA) by {
        assert IsClean(Str("null"));
      }
      var branches := Normalized(c)["anyOf"];
      assert forall i :: 0 <= i < |branches.items| ==> IsClean(branches.items[i]);
      assert IsClean(branches);
    }
  }

  lemma {:induction false} CleanedIsClean(v: Json)
    ensures IsClean(Cleaned(v))
    decreases v
  {
    match v
    case Obj(f) =>
      var c := CleanedEntries(f - METADATA_KEYS);
      forall k | k in c ensures IsClean(c[k]) {
        assert f[k] < v;
        CleanedIsClean(f[k]);
      }
      CleanedObject(f);
      NormalizedIsClean(c);
    case Arr(items) =>
      CleanedArray(items);
      forall i | 0 <= i < |items| ensures IsClean(CleanedItems(items)[i]) {
        assert items[i] < v;
        CleanedIsClean(items[i]);
      }
    case _ =>
  }

  /** The clean-up leaves no metadata key and no nullable type list anywhere, and a value is left alone if and only
      if it holds neither. */
  lemma CleansExactly(v: Json)
    ensures IsClean(Cleaned(v))
    ensures Cleaned(v) == v <==> IsClean(v)
  {
    CleanedIsClean(v);
    if IsClean(v) {
      CleanStays(v);
    }
  }

  /** What a rewritten node looks like: a union of what it was, under its other type and without its description, and
      of null; the description stays in front of the union. */
  lemma RewrittenNode(f: Fields)
    requires "type" in f && IsNullableList(f["type"])
    ensures var r, other := Normalized(f),
        if f["type"].items[0] == Str("null") then f["type"].items[1] else f["type"].items[0];
      && Get(r, "description") == Get(f, "description")
      && r.Keys == {"anyOf"} + (f.Keys * {"description"})
      && |Elements(r, "anyOf")| == 2
      && Elements(r, "anyOf")[1] == Obj(map["type" := Str("null")])
      && Elements(r, "anyOf")[0].Obj?
      && var typed := Elements(r, "anyOf")[0].fields;
         && typed.Keys == f.Keys - {"description"} && typed["type"] == other && other != Str("null")
         && forall k :: k in typed && k != "type" ==> typed[k] == f[k]
  {
    NullableIsTheList(f);
  }
}
