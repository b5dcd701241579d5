// What a schema accepts under JSON Schema draft-07 Validation, for the keywords
// the tool contract allows, and what the clean-up does to it.
module SchemaMeaning {
  import opened Wrappers
  import opened Doubles
  import opened Json
  import opened SchemaRules
  import opened SchemaCleanup

  // The regular expression engine behind "pattern".
  type Matcher = (string, string) -> bool

  // ---------------------------------------------------------------- one instance

  // Section 6.1.1; an integer is a number with no fractional part.
  predicate HasType(x: Json, name: string) {
    || (name == "null" && x.Null?)
    || (name == "boolean" && x.Bool?)
    || (name == "object" && x.Obj?)
    || (name == "array" && x.Arr?)
    || (name == "string" && x.Str?)
    || (name == "number" && x.Num?)
    || (name == "integer" && x.Num? && ValueOf(x.n).Floor as real == ValueOf(x.n))
  }

  // Equality of instances: numbers by value, objects by their members.
  predicate Same(a: Json, b: Json) {
    match (a, b)
    case (Num(m), Num(n)) => ValueOf(m) == ValueOf(n)
    case (Arr(s), Arr(t)) => |s| == |t| && forall i :: 0 <= i < |s| ==> Same(s[i], t[i])
    case (Obj(f), Obj(g)) => f.Keys == g.Keys && forall k :: k in f ==> Same(f[k], g[k])
    case _ => a == b
  }

  predicate TypeHolds(f: Fields, x: Json) {
    "type" in f ==>
      match f["type"]
      case Str(name) => HasType(x, name)
      case Arr(names) => exists i :: 0 <= i < |names| && names[i].Str? && HasType(x, names[i].s)
      case _ => false
  }

  // Section 6.1.2.
  predicate EnumHolds(f: Fields, x: Json) {
    "enum" in f ==> exists i :: 0 <= i < |Elements(f, "enum")| && Same(Elements(f, "enum")[i], x)
  }

  predicate RequiredHolds(f: Fields, x: Json) {
    x.Obj? ==>
      forall i :: 0 <= i < |Elements(f, "required")| && Elements(f, "required")[i].Str? ==>
        Elements(f, "required")[i].s in x.fields
  }

  predicate BoundsHold(f: Fields, x: Json, matches: Matcher) {
    match x
    case Num(n) =>
      && (Bounded(f, "minimum") ==> ValueOf(f["minimum"].n) <= ValueOf(n))
      && (Bounded(f, "maximum") ==> ValueOf(n) <= ValueOf(f["maximum"].n))
      && (Bounded(f, "exclusiveMinimum") ==> ValueOf(f["exclusiveMinimum"].n) < ValueOf(n))
      && (Bounded(f, "exclusiveMaximum") ==> ValueOf(n) < ValueOf(f["exclusiveMaximum"].n))
    case Str(s) =>
      && SizeHolds(f, "minLength", "maxLength", |s|)
      && ("pattern" in f && f["pattern"].Str? ==> matches(f["pattern"].s, s))
    case Arr(items) => SizeHolds(f, "minItems", "maxItems", |items|)
    case _ => true
  }

  predicate Bounded(f: Fields, key: string) {
    key in f && f[key].Num?
  }

  predicate SizeHolds(f: Fields, low: string, high: string, size: nat) {
    && (Bounded(f, low) ==> ValueOf(f[low].n) <= size as real)
    && (Bounded(f, high) ==> size as real <= ValueOf(f[high].n))
  }

  // ---------------------------------------------------------------- schemas

  ghost predicate Accepts(s: Json, x: Json, matches: Matcher)
    decreases s, 3
  {
    AcceptsHere(s, x, matches)
  }

  ghost predicate AcceptsHere(s: Json, x: Json, matches: Matcher)
    decreases s, 2
  {
    match s
    case Bool(b) => b
    case Obj(f) => TypeHolds(f, x) && RestHolds(s, x, matches)
    case _ => false
  }

  // Every keyword but the type.
  ghost predicate RestHolds(s: Json, x: Json, matches: Matcher)
    requires s.Obj?
    decreases s, 1
  {
    && EnumHolds(s.fields, x) && RequiredHolds(s.fields, x) && BoundsHold(s.fields, x, matches)
    && UnionHolds(s, x, matches) && ItemsHold(s, x, matches) && MembersHold(s, x, matches)
  }

  // Section 6.7.2.
  ghost predicate UnionHolds(s: Json, x: Json, matches: Matcher)
    requires s.Obj?
    decreases s, 0
  {
    "anyOf" in s.fields ==>
      exists i :: 0 <= i < |Elements(s.fields, "anyOf")| && Accepts(Elements(s.fields, "anyOf")[i], x, matches)
  }

  // Section 6.4.1.
  ghost predicate ItemsHold(s: Json, x: Json, matches: Matcher)
    requires s.Obj?
    decreases s, 0
  {
    x.Arr? && "items" in s.fields ==>
      forall i :: 0 <= i < |x.items| ==> Accepts(s.fields["items"], x.items[i], matches)
  }

  // Sections 6.5.4 and 6.5.6.
  ghost predicate MembersHold(s: Json, x: Json, matches: Matcher)
    requires s.Obj?
    decreases s, 0
  {
    var properties := Members(s.fields, "properties");
    x.Obj? ==>
      && (forall name :: name in properties && name in x.fields ==>
            Accepts(properties[name], x.fields[name], matches))
      && ("additionalProperties" in s.fields ==>
            forall name :: name in x.fields && name !in properties ==>
              Accepts(s.fields["additionalProperties"], x.fields[name], matches))
  }

  ghost predicate Equivalent(s: Json, t: Json, matches: Matcher) {
    forall x :: Accepts(s, x, matches) <==> Accepts(t, x, matches)
  }

  // ---------------------------------------------------------------- one node

  // What the rewriting needs: the other keywords must let null through.
  ghost predicate NullAllowed(f: Fields, matches: Matcher) {
    && ("enum" in f ==> exists i :: 0 <= i < |Elements(f, "enum")| && Elements(f, "enum")[i].Null?)
    && ("anyOf" in f ==>
          exists i :: 0 <= i < |Elements(f, "anyOf")| && Accepts(Elements(f, "anyOf")[i], Null, matches))
  }

  lemma NullAllowedMeans(f: Fields, matches: Matcher)
    ensures RestHolds(Obj(f), Null, matches) <==> NullAllowed(f, matches)
  {
    var v := Obj(f);
    assert Elements(f, "anyOf") == Elements(v.fields, "anyOf");
  }

  // Two objects with the same entries, type and description aside.
  ghost predicate AgreeBeyondType(f: Fields, g: Fields) {
    forall k :: k != "type" && k != "description" ==> Get(f, k) == Get(g, k)
  }

  lemma RestIgnoresType(f: Fields, g: Fields, x: Json, matches: Matcher)
    requires AgreeBeyondType(f, g)
    ensures RestHolds(Obj(f), x, matches) <==> RestHolds(Obj(g), x, matches)
  {
    PlainIgnoreType(f, g, x);
    BoundsIgnoreType(f, g, x, matches);
    assert UnionHolds(Obj(f), x, matches) <==> UnionHolds(Obj(g), x, matches) by {
      SameEntry(f, g, "anyOf");
    }
    assert ItemsHold(Obj(f), x, matches) <==> ItemsHold(Obj(g), x, matches) by {
      SameEntry(f, g, "items");
    }
    assert MembersHold(Obj(f), x, matches) <==> MembersHold(Obj(g), x, matches) by {
      SameEntry(f, g, "properties");
      SameEntry(f, g, "additionalProperties");
    }
  }

  lemma SameEntry(f: Fields, g: Fields, k: string)
    requires AgreeBeyondType(f, g) && k != "type" && k != "description"
    ensures (k in f <==> k in g) && (k in f ==> f[k] == g[k])
    ensures Elements(f, k) == Elements(g, k) && Members(f, k) == Members(g, k)
  {
    assert Get(f, k) == Get(g, k);
  }

  lemma PlainIgnoreType(f: Fields, g: Fields, x: Json)
    requires AgreeBeyondType(f, g)
    ensures EnumHolds(f, x) <==> EnumHolds(g, x)
    ensures RequiredHolds(f, x) <==> RequiredHolds(g, x)
  {
    SameEntry(f, g, "enum");
    SameEntry(f, g, "required");
  }

  lemma BoundsIgnoreType(f: Fields, g: Fields, x: Json, matches: Matcher)
    requires AgreeBeyondType(f, g)
    ensures BoundsHold(f, x, matches) <==> BoundsHold(g, x, matches)
  {
    match x
    case Num(_) =>
      SameEntry(f, g, "minimum");
      SameEntry(f, g, "maximum");
      SameEntry(f, g, "exclusiveMinimum");
      SameEntry(f, g, "exclusiveMaximum");
    case Str(_) =>
      SameEntry(f, g, "minLength");
      SameEntry(f, g, "maxLength");
      SameEntry(f, g, "pattern");
    case Arr(_) =>
      SameEntry(f, g, "minItems");
      SameEntry(f, g, "maxItems");
    case _ =>
  }

  lemma NullableAccepts(f: Fields, x: Json, matches: Matcher)
    requires Nullable(f)
    ensures Accepts(Obj(f), x, matches) <==>
            (HasType(x, NonNullType(f)) || x.Null?) && RestHolds(Obj(f), x, matches)
  {
    assert Accepts(Obj(f), x, matches) == AcceptsHere(Obj(f), x, matches);
    var names := f["type"].items;
    assert HasType(x, "null") <==> x.Null?;
    assert TypeHolds(f, x) <==> HasType(x, names[0].s) || HasType(x, names[1].s);
  }

  lemma TypedAccepts(f: Fields, x: Json, matches: Matcher)
    requires Nullable(f)
    ensures Accepts(Obj(Typed(f)), x, matches) <==> HasType(x, NonNullType(f)) && RestHolds(Obj(f), x, matches)
  {
    var typed := Typed(f);
    assert Accepts(Obj(typed), x, matches) == AcceptsHere(Obj(typed), x, matches);
    assert AgreeBeyondType(f, typed);
    RestIgnoresType(f, typed, x, matches);
  }

  lemma NullSchemaAccepts(x: Json, matches: Matcher)
    ensures Accepts(NULL_SCHEMA, x, matches) <==> x.Null?
  {
    assert Accepts(NULL_SCHEMA, x, matches) == AcceptsHere(NULL_SCHEMA, x, matches);
    assert HasType(x, "null") <==> x.Null?;
    var f: Fields := map["type" := Str("null")];
    EmptyRest(f, x, matches);
  }

  lemma EmptyRest(f: Fields, x: Json, matches: Matcher)
    requires f.Keys <= {"type"}
    ensures RestHolds(Obj(f), x, matches)
  {
    assert AgreeBeyondType(f, map[]);
    RestIgnoresType(f, map[], x, matches);
  }

  lemma RewrittenAccepts(f: Fields, x: Json, matches: Matcher)
    requires Nullable(f)
    ensures Accepts(Obj(Normalized(f)), x, matches) <==> Accepts(Obj(Typed(f)), x, matches) || x.Null?
  {
    var union := Normalized(f);
    var v := Obj(union);
    assert Accepts(v, x, matches) == AcceptsHere(v, x, matches);
    var bare := union - {"anyOf"};
    assert bare.Keys <= {"description"};
    UnionAlone(union, x, matches);
    NullSchemaAccepts(x, matches);
    assert Elements(union, "anyOf") == [Obj(Typed(f)), NULL_SCHEMA];
    assert Elements(union, "anyOf")[0] == Obj(Typed(f)) && Elements(union, "anyOf")[1] == NULL_SCHEMA;
  }

  lemma UnionAlone(f: Fields, x: Json, matches: Matcher)
    requires f.Keys <= {"anyOf", "description"}
    ensures RestHolds(Obj(f), x, matches) <==> UnionHolds(Obj(f), x, matches)
  {
    match x
    case Num(_) =>
      assert forall k :: k in f ==> k !in NUMERIC_BOUNDS;
    case _ =>
  }

  // The rewriting of one node keeps its meaning exactly when the other
  // keywords of the node let null through.
  lemma RewriteKeepsMeaning(f: Fields, matches: Matcher)
    requires Nullable(f)
    ensures Equivalent(Obj(Normalized(f)), Obj(f), matches) <==> NullAllowed(f, matches)
  {
    NullAllowedMeans(f, matches);
    forall x
      ensures Accepts(Obj(Normalized(f)), x, matches) <==>
              (HasType(x, NonNullType(f)) && RestHolds(Obj(f), x, matches)) || x.Null?
      ensures Accepts(Obj(f), x, matches) <==>
              (HasType(x, NonNullType(f)) || x.Null?) && RestHolds(Obj(f), x, matches)
    {
      RewrittenAccepts(f, x, matches);
      TypedAccepts(f, x, matches);
      NullableAccepts(f, x, matches);
    }
    assert !HasType(Null, NonNullType(f));
    if !NullAllowed(f, matches) {
      assert Accepts(Obj(Normalized(f)), Null, matches) && !Accepts(Obj(f), Null, matches);
    }
  }

  // ---------------------------------------------------------------- the whole clean-up

  // A generated schema: only known keywords, no property named like a metadata
  // key, every nullable node lets null through, and nothing that is not a schema
  // is touched by the clean-up.
  ghost predicate Generated(s: Json, matches: Matcher)
    decreases s, 1
  {
    GeneratedHere(s, matches)
  }

  ghost predicate GeneratedHere(s: Json, matches: Matcher)
    decreases s, 0
  {
    s.Bool?
    || (&& s.Obj?
        && KeywordsFit(s.fields)
        && (Nullable(s.fields) ==> NullAllowed(s.fields, matches))
        && (forall i :: 0 <= i < |Elements(s.fields, "anyOf")| ==> Generated(Elements(s.fields, "anyOf")[i], matches))
        && (forall name :: name in Members(s.fields, "properties") ==>
              Generated(Members(s.fields, "properties")[name], matches))
        && ("items" in s.fields ==> Generated(s.fields["items"], matches))
        && ("additionalProperties" in s.fields ==> Generated(s.fields["additionalProperties"], matches)))
  }

  const SCHEMA_KEYS: set<string> := {"anyOf", "properties", "items", "additionalProperties"}

  predicate KeywordsFit(f: Fields) {
    && f.Keys <= ALLOWED_KEYS + METADATA_KEYS
    && ("anyOf" in f ==> f["anyOf"].Arr?)
    && ("properties" in f ==> f["properties"].Obj? && f["properties"].fields.Keys !! METADATA_KEYS)
    && (forall k :: k in f && k !in SCHEMA_KEYS && k !in METADATA_KEYS ==> Cleaned(f[k]) == f[k])
  }

  lemma {:induction false} CleaningKeepsMeaning(s: Json, matches: Matcher)
    requires Generated(s, matches)
    ensures Equivalent(Cleaned(s), s, matches)
    decreases s
  {
    assert GeneratedHere(s, matches);
    if s.Obj? {
      var f := s.fields;
      forall i | 0 <= i < |Elements(f, "anyOf")|
        ensures Equivalent(Cleaned(Elements(f, "anyOf")[i]), Elements(f, "anyOf")[i], matches)
      {
        CleaningKeepsMeaning(Elements(f, "anyOf")[i], matches);
      }
      forall name | name in Members(f, "properties")
        ensures Equivalent(Cleaned(Members(f, "properties")[name]), Members(f, "properties")[name], matches)
        ensures !Members(f, "properties")[name].Arr?
      {
        GeneratedIsNoArray(Members(f, "properties")[name], matches);
        CleaningKeepsMeaning(Members(f, "properties")[name], matches);
      }
      if "items" in f {
        CleaningKeepsMeaning(f["items"], matches);
      }
      if "additionalProperties" in f {
        CleaningKeepsMeaning(f["additionalProperties"], matches);
      }
      NodeKeepsMeaning(f, matches);
    }
  }

  lemma GeneratedIsNoArray(s: Json, matches: Matcher)
    requires Generated(s, matches)
    ensures !s.Arr?
  {
    assert GeneratedHere(s, matches);
  }

  // The schemas below are cleaned without changing what they accept.
  ghost predicate ChildrenKept(f: Fields, matches: Matcher) {
    && (forall i :: 0 <= i < |Elements(f, "anyOf")| ==>
          Equivalent(Cleaned(Elements(f, "anyOf")[i]), Elements(f, "anyOf")[i], matches))
    && (forall name :: name in Members(f, "properties") ==>
          Equivalent(Cleaned(Members(f, "properties")[name]), Members(f, "properties")[name], matches))
    && ("items" in f ==> Equivalent(Cleaned(f["items"]), f["items"], matches))
    && ("additionalProperties" in f ==>
          Equivalent(Cleaned(f["additionalProperties"]), f["additionalProperties"], matches))
  }

  // What cleaning the entries of a node leaves and what it replaces.
  ghost predicate EntriesCleaned(f: Fields, c: Fields) {
    && (forall k :: k !in SCHEMA_KEYS && k !in METADATA_KEYS ==> Get(c, k) == Get(f, k))
    && (forall k :: k in SCHEMA_KEYS ==> (k in c <==> k in f))
    && Elements(c, "anyOf") == CleanedItems(Elements(f, "anyOf"))
    && Members(c, "properties") == CleanedEntries(Members(f, "properties"))
    && (forall k :: k in c && k in SCHEMA_KEYS ==> c[k] == Cleaned(f[k]))
  }

  lemma CleaningEntries(f: Fields)
    requires KeywordsFit(f)
    requires forall name :: name in Members(f, "properties") ==> !Members(f, "properties")[name].Arr?
    ensures EntriesCleaned(f, CleanedEntries(f - METADATA_KEYS))
  {
    var c := CleanedEntries(f - METADATA_KEYS);
    assert SCHEMA_KEYS !! METADATA_KEYS;
    assert forall k :: k in c <==> k in f && k !in METADATA_KEYS;
    assert forall k :: k in c ==> c[k] == Cleaned(f[k]);
    if "anyOf" in f {
      CleanedArray(f["anyOf"].items);
    }
    if "properties" in f {
      var properties := f["properties"].fields;
      CleanedObject(properties);
      assert properties - METADATA_KEYS == properties;
      TypeIsUntouched(properties);
    }
  }

  lemma SameKeyword(f: Fields, c: Fields, k: string)
    requires EntriesCleaned(f, c) && k !in SCHEMA_KEYS && k !in METADATA_KEYS
    ensures (k in f <==> k in c) && (k in f ==> f[k] == c[k]) && Elements(f, k) == Elements(c, k)
  {
    assert Get(c, k) == Get(f, k);
  }

  lemma PlainKept(f: Fields, c: Fields, x: Json)
    requires EntriesCleaned(f, c)
    ensures TypeHolds(f, x) <==> TypeHolds(c, x)
    ensures EnumHolds(f, x) <==> EnumHolds(c, x)
    ensures RequiredHolds(f, x) <==> RequiredHolds(c, x)
  {
    SameKeyword(f, c, "type");
    SameKeyword(f, c, "enum");
    SameKeyword(f, c, "required");
  }

  lemma BoundsKept(f: Fields, c: Fields, x: Json, matches: Matcher)
    requires EntriesCleaned(f, c)
    ensures BoundsHold(f, x, matches) <==> BoundsHold(c, x, matches)
  {
    match x
    case Num(_) => NumberBoundsKept(f, c);
    case Str(_) => StringBoundsKept(f, c);
    case Arr(_) => ItemBoundsKept(f, c);
    case _ =>
  }

  lemma NumberBoundsKept(f: Fields, c: Fields)
    requires EntriesCleaned(f, c)
    ensures forall k :: k in NUMERIC_BOUNDS ==> (k in f <==> k in c) && (k in f ==> f[k] == c[k])
  {
    assert NUMERIC_BOUNDS !! SCHEMA_KEYS && NUMERIC_BOUNDS !! METADATA_KEYS;
    forall k | k in NUMERIC_BOUNDS ensures (k in f <==> k in c) && (k in f ==> f[k] == c[k]) {
      SameKeyword(f, c, k);
    }
  }

  lemma StringBoundsKept(f: Fields, c: Fields)
    requires EntriesCleaned(f, c)
    ensures forall k :: k in {"minLength", "maxLength", "pattern"} ==>
              (k in f <==> k in c) && (k in f ==> f[k] == c[k])
  {
    SameKeyword(f, c, "minLength");
    SameKeyword(f, c, "maxLength");
    SameKeyword(f, c, "pattern");
  }

  lemma ItemBoundsKept(f: Fields, c: Fields)
    requires EntriesCleaned(f, c)
    ensures forall k :: k in {"minItems", "maxItems"} ==> (k in f <==> k in c) && (k in f ==> f[k] == c[k])
  {
    SameKeyword(f, c, "minItems");
    SameKeyword(f, c, "maxItems");
  }

  lemma UnionKept(f: Fields, c: Fields, x: Json, matches: Matcher)
    requires EntriesCleaned(f, c) && ChildrenKept(f, matches)
    ensures UnionHolds(Obj(f), x, matches) <==> UnionHolds(Obj(c), x, matches)
  {
    var before, after := Elements(f, "anyOf"), Elements(c, "anyOf");
    assert "anyOf" in SCHEMA_KEYS;
    forall i | 0 <= i < |before| ensures Accepts(after[i], x, matches) <==> Accepts(before[i], x, matches) {
      assert after[i] == Cleaned(before[i]);
      assert Equivalent(Cleaned(before[i]), before[i], matches);
    }
  }

  lemma ItemsKept(f: Fields, c: Fields, x: Json, matches: Matcher)
    requires EntriesCleaned(f, c) && ChildrenKept(f, matches)
    ensures ItemsHold(Obj(f), x, matches) <==> ItemsHold(Obj(c), x, matches)
  {
    assert "items" in SCHEMA_KEYS;
  }

  lemma MembersKept(f: Fields, c: Fields, x: Json, matches: Matcher)
    requires EntriesCleaned(f, c) && ChildrenKept(f, matches)
    ensures MembersHold(Obj(f), x, matches) <==> MembersHold(Obj(c), x, matches)
  {
    var before, after := Members(f, "properties"), Members(c, "properties");
    assert "additionalProperties" in SCHEMA_KEYS;
    assert after.Keys == before.Keys;
    if x.Obj? {
      forall name | name in before && name in x.fields
        ensures Accepts(after[name], x.fields[name], matches) <==> Accepts(before[name], x.fields[name], matches)
      {
        assert after[name] == Cleaned(before[name]);
        assert Equivalent(Cleaned(before[name]), before[name], matches);
      }
    }
  }

  lemma EntriesKept(f: Fields, c: Fields, matches: Matcher)
    requires EntriesCleaned(f, c) && ChildrenKept(f, matches)
    ensures Equivalent(Obj(c), Obj(f), matches)
  {
    forall x ensures Accepts(Obj(c), x, matches) <==> Accepts(Obj(f), x, matches) {
      assert Accepts(Obj(f), x, matches) == AcceptsHere(Obj(f), x, matches);
      assert Accepts(Obj(c), x, matches) == AcceptsHere(Obj(c), x, matches);
      PlainKept(f, c, x);
      BoundsKept(f, c, x, matches);
      UnionKept(f, c, x, matches);
      ItemsKept(f, c, x, matches);
      MembersKept(f, c, x, matches);
      assert RestHolds(Obj(c), x, matches) <==> RestHolds(Obj(f), x, matches);
    }
  }

  lemma NullStillAllowed(f: Fields, c: Fields, matches: Matcher)
    requires EntriesCleaned(f, c) && ChildrenKept(f, matches)
    requires NullAllowed(f, matches)
    ensures NullAllowed(c, matches)
  {
    NullAllowedMeans(f, matches);
    NullAllowedMeans(c, matches);
    PlainKept(f, c, Null);
    UnionKept(f, c, Null, matches);
  }

  lemma NodeKeepsMeaning(f: Fields, matches: Matcher)
    requires KeywordsFit(f) && ChildrenKept(f, matches)
    requires Nullable(f) ==> NullAllowed(f, matches)
    requires forall name :: name in Members(f, "properties") ==> !Members(f, "properties")[name].Arr?
    ensures Equivalent(Cleaned(Obj(f)), Obj(f), matches)
  {
    var c := CleanedEntries(f - METADATA_KEYS);
    CleaningEntries(f);
    CleanedObject(f);
    EntriesKept(f, c, matches);
    TypeIsUntouched(f - METADATA_KEYS);
    if Nullable(c) {
      assert Nullable(f);
      NullStillAllowed(f, c, matches);
      RewriteKeepsMeaning(c, matches);
    }
  }
}
