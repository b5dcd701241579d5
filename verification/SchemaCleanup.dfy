// The clean-up of generated schemas (crates/tool-contract/src/schema.rs:48-96):
// metadata keys go, and a two-type "nullable" becomes a union.
module SchemaCleanup {
  import opened Wrappers
  import opened Json
  import opened SchemaRules

  const METADATA_KEYS: set<string> := {"$schema", "title", "default", "examples", "format"}

  const NULL_SCHEMA: Json := Obj(map["type" := Str("null")])

  // ---------------------------------------------------------------- one object

  // The non-null member of a two-element type list that also lists null.
  predicate Nullable(f: Fields) {
    && "type" in f && f["type"].Arr? && |f["type"].items| == 2
    && f["type"].items[0].Str? && f["type"].items[1].Str?
    && ((f["type"].items[0].s == "null") != (f["type"].items[1].s == "null"))
  }

  function NonNullType(f: Fields): string
    requires Nullable(f)
  {
    if f["type"].items[0].s == "null" then f["type"].items[1].s else f["type"].items[0].s
  }

  // Everything but the description moves into the first branch.
  function Typed(f: Fields): Fields
    requires Nullable(f)
  {
    (f - {"description"})["type" := Str(NonNullType(f))]
  }

  function Normalized(f: Fields): Fields {
    if !Nullable(f) then f
    else
      var union := map["anyOf" := Arr([Obj(Typed(f)), NULL_SCHEMA])];
      if "description" in f then union["description" := f["description"]] else union
  }

  // The source's own search through the type list.
  method NormalizeNullableType(f: Fields) returns (r: Fields)
    ensures r == Normalized(f)
  {
    if "type" !in f || !f["type"].Arr? {
      return f;
    }
    var types := f["type"].items;
    var nonNull: Option<string> := None;
    var nullable := false;
    for i := 0 to |types|
      invariant nullable <==> Str("null") in types[..i]
      invariant nonNull.None? ==> forall j :: 0 <= j < i && types[j].Str? ==> types[j].s == "null"
      invariant nonNull.Some? ==> nonNull.value != "null" && exists j :: 0 <= j < i && types[j] == Str(nonNull.value)
    {
      if types[i].Str? && types[i].s != "null" && nonNull.None? {
        nonNull := Some(types[i].s);
      }
      if types[i] == Str("null") {
        nullable := true;
      }
    }
    if |types| != 2 || !nullable || nonNull.None? {
      return f;
    }
    var description := Get(f, "description");
    var typed := f - {"description", "type"};
    typed := typed["type" := Str(nonNull.value)];
    assert typed == Typed(f);
    r := map["anyOf" := Arr([Obj(typed), NULL_SCHEMA])];
    if description.Some? {
      r := r["description" := description.value];
    }
  }

  // ---------------------------------------------------------------- the specification

  // Bottom-up: clean what is inside, then rewrite the node. It follows the
  // tree, so it terminates plainly; the source rewrites first and then visits
  // the union it has just built, one level deeper.
  function Cleaned(v: Json): (r: Json)
    decreases v
  {
    match v
    case Obj(f) => Obj(Normalized(map k | k in f && k !in METADATA_KEYS :: Cleaned(f[k])))
    case Arr(items) => Arr(seq(|items|, i requires 0 <= i < |items| => Cleaned(items[i])))
    case _ => v
  }

  function CleanedEntries(f: Fields): Fields {
    map k | k in f :: Cleaned(f[k])
  }

  function CleanedItems(items: seq<Json>): seq<Json> {
    seq(|items|, i requires 0 <= i < |items| => Cleaned(items[i]))
  }

  lemma CleanedObject(f: Fields)
    ensures Cleaned(Obj(f)) == Obj(Normalized(CleanedEntries(f - METADATA_KEYS)))
  {
    var v := Obj(f);
    var g := f - METADATA_KEYS;
    assert (map k | k in v.fields && k !in METADATA_KEYS :: Cleaned(v.fields[k])) == CleanedEntries(g);
  }

  lemma CleanedArray(items: seq<Json>)
    ensures Cleaned(Arr(items)) == Arr(CleanedItems(items))
  {
    var v := Arr(items);
    assert seq(|v.items|, i requires 0 <= i < |v.items| => Cleaned(v.items[i])) == CleanedItems(items);
  }

  // ---------------------------------------------------------------- termination

  // A type list weighs more than the level its rewriting adds.
  ghost function Weight(v: Json): nat
    decreases v, 1, 0
  {
    match v
    case Obj(f) => 1 + WeightOfEntries(v, f.Keys) + (if "type" in f && f["type"].Arr? then 3 else 0)
    case Arr(items) => 1 + WeightOfItems(v, |items|)
    case _ => 1
  }

  ghost function WeightOfItems(v: Json, n: nat): nat
    requires v.Arr? && n <= |v.items|
    decreases v, 0, n
  {
    if n == 0 then 0 else WeightOfItems(v, n - 1) + Weight(v.items[n - 1])
  }

  ghost function WeightOfEntries(v: Json, keys: set<string>): nat
    requires v.Obj? && keys <= v.fields.Keys
    decreases v, 0, |keys|
  {
    if keys == {} then 0
    else
      var k :| k in keys;
      Weight(v.fields[k]) + WeightOfEntries(v, keys - {k})
  }

  lemma {:induction false} WeightPick(v: Json, keys: set<string>, k: string)
    requires v.Obj? && keys <= v.fields.Keys && k in keys
    ensures WeightOfEntries(v, keys) == Weight(v.fields[k]) + WeightOfEntries(v, keys - {k})
    decreases |keys|
  {
    var first :| first in keys
                 && WeightOfEntries(v, keys) == Weight(v.fields[first]) + WeightOfEntries(v, keys - {first});
    if first != k {
      WeightPick(v, keys - {first}, k);
      WeightPick(v, keys - {k}, first);
      assert keys - {first} - {k} == keys - {k} - {first};
    }
  }

  lemma {:induction false} WeightAgrees(v: Json, w: Json, keys: set<string>)
    requires v.Obj? && w.Obj? && keys <= v.fields.Keys && keys <= w.fields.Keys
    requires forall k :: k in keys ==> v.fields[k] == w.fields[k]
    ensures WeightOfEntries(v, keys) == WeightOfEntries(w, keys)
    decreases |keys|
  {
    if keys != {} {
      var k :| k in keys;
      WeightPick(v, keys, k);
      WeightPick(w, keys, k);
      WeightAgrees(v, w, keys - {k});
    }
  }

  lemma {:induction false} WeightOfFewer(v: Json, keys: set<string>, fewer: set<string>)
    requires v.Obj? && fewer <= keys <= v.fields.Keys
    ensures WeightOfEntries(v, fewer) <= WeightOfEntries(v, keys)
    decreases |keys|
  {
    if fewer != keys {
      var k :| k in keys && k !in fewer;
      WeightPick(v, keys, k);
      WeightOfFewer(v, keys - {k}, fewer);
    }
  }

  lemma EntryWeighsLess(v: Json, k: string)
    requires v.Obj? && k in v.fields
    ensures Weight(v.fields[k]) < Weight(v)
  {
    WeightPick(v, v.fields.Keys, k);
  }

  lemma {:induction false} ItemWeighsLess(v: Json, i: nat, n: nat)
    requires v.Arr? && i < n <= |v.items|
    ensures Weight(v.items[i]) <= WeightOfItems(v, n)
    decreases n
  {
    if i < n - 1 {
      ItemWeighsLess(v, i, n - 1);
    }
  }

  lemma RemovalWeighsNoMore(f: Fields)
    ensures Weight(Obj(f - METADATA_KEYS)) <= Weight(Obj(f))
  {
    var g := f - METADATA_KEYS;
    WeightOfFewer(Obj(f), f.Keys, g.Keys);
    WeightAgrees(Obj(f), Obj(g), g.Keys);
  }

  // Without its type and description a node weighs the same before and after.
  lemma RewritingWeighsNoMore(f: Fields)
    ensures Weight(Obj(Normalized(f))) <= Weight(Obj(f))
  {
    if Nullable(f) {
      var rest := f.Keys - {"type", "description"};
      var typed := Typed(f);
      WeightOfTyped(f, rest);
      WeightOfUnion(f);
      WeightPick(Obj(f), f.Keys, "type");
      WeightOfFewer(Obj(f), f.Keys - {"type"}, rest);
      TypeListWeighs(f);
      if "description" in f {
        WeightPick(Obj(f), f.Keys - {"type"}, "description");
        assert f.Keys - {"type"} - {"description"} == rest;
      }
    }
  }

  lemma TypeListWeighs(f: Fields)
    requires Nullable(f)
    ensures Weight(f["type"]) == 3
  {
    var v := f["type"];
    assert WeightOfItems(v, 2) == WeightOfItems(v, 1) + 1;
    assert WeightOfItems(v, 1) == WeightOfItems(v, 0) + 1;
  }

  lemma WeightOfTyped(f: Fields, rest: set<string>)
    requires Nullable(f) && rest == f.Keys - {"type", "description"}
    ensures Weight(Obj(Typed(f))) == 2 + WeightOfEntries(Obj(f), rest)
  {
    var typed := Typed(f);
    WeightPick(Obj(typed), typed.Keys, "type");
    assert typed.Keys - {"type"} == rest;
    WeightAgrees(Obj(f), Obj(typed), rest);
  }

  lemma WeightOfUnion(f: Fields)
    requires Nullable(f)
    ensures Weight(Obj(Normalized(f))) ==
            4 + Weight(Obj(Typed(f))) + (if "description" in f then Weight(f["description"]) else 0)
  {
    var union := Normalized(f);
    var branches := union["anyOf"];
    WeightPick(Obj(union), union.Keys, "anyOf");
    WeightPick(NULL_SCHEMA, NULL_SCHEMA.fields.Keys, "type");
    assert NULL_SCHEMA.fields.Keys - {"type"} == {};
    assert WeightOfItems(branches, 2) == WeightOfItems(branches, 1) + Weight(NULL_SCHEMA);
    assert WeightOfItems(branches, 1) == WeightOfItems(branches, 0) + Weight(Obj(Typed(f)));
    if "description" in f {
      WeightPick(Obj(union), union.Keys - {"anyOf"}, "description");
      assert union.Keys - {"anyOf"} - {"description"} == {};
    } else {
      assert union.Keys - {"anyOf"} == {};
    }
  }

  // ---------------------------------------------------------------- the clean-up as written

  // Rewriting first and cleaning what is inside afterwards gives the same
  // object as cleaning first.
  lemma RewriteCommutes(f: Fields)
    requires f.Keys !! METADATA_KEYS
    ensures CleanedEntries(Normalized(f)) == Normalized(CleanedEntries(f))
  {
    TypeIsUntouched(f);
    if Nullable(f) {
      CleanedBranches(f);
      var union := Normalized(f);
      CleanedArray(union["anyOf"].items);
    }
  }

  // The two branches of a rewritten node are cleaned to those of the cleaned node.
  lemma CleanedBranches(f: Fields)
    requires f.Keys !! METADATA_KEYS && Nullable(f) && Nullable(CleanedEntries(f))
    ensures CleanedItems([Obj(Typed(f)), NULL_SCHEMA]) == [Obj(Typed(CleanedEntries(f))), NULL_SCHEMA]
  {
    var typed, c := Typed(f), CleanedEntries(f);
    TypeIsUntouched(f);
    CleanedObject(typed);
    assert typed - METADATA_KEYS == typed;
    assert CleanedEntries(typed) == Typed(c);
    NullSchemaIsClean();
  }

  lemma NullSchemaIsClean()
    ensures Cleaned(NULL_SCHEMA) == NULL_SCHEMA
  {
    var f := NULL_SCHEMA.fields;
    CleanedObject(f);
    assert f - METADATA_KEYS == f && CleanedEntries(f) == f;
  }

  lemma TypeIsUntouched(f: Fields)
    ensures Nullable(CleanedEntries(f)) <==> Nullable(f)
    ensures Nullable(f) ==> NonNullType(CleanedEntries(f)) == NonNullType(f)
  {
    if "type" in f && f["type"].Arr? {
      CleanedArray(f["type"].items);
    }
  }

  method RemoveGenerationMetadata(value: Json) returns (r: Json)
    ensures r == Cleaned(value)
    decreases Weight(value), 1
  {
    match value {
      case Obj(f) =>
        CleanedObject(f);
        RemovalWeighsNoMore(f);
        var kept := f - METADATA_KEYS;
        RewritingWeighsNoMore(kept);
        RewriteCommutes(kept);
        var normal := NormalizeNullableType(kept);
        var fields := CleanValues(normal);
        r := Obj(fields);
      case Arr(items) =>
        CleanedArray(items);
        var cleaned := CleanItems(items);
        r := Arr(cleaned);
      case _ =>
        r := value;
    }
  }

  // The loop over the values of an object, in whatever order the map yields them.
  method CleanValues(f: Fields) returns (r: Fields)
    ensures r == CleanedEntries(f)
    decreases Weight(Obj(f)), 0
  {
    r := f;
    var left := f.Keys;
    while left != {}
      invariant left <= f.Keys && r.Keys == f.Keys
      invariant forall k :: k in f ==> r[k] == if k in left then f[k] else Cleaned(f[k])
      decreases |left|
    {
      var k :| k in left;
      EntryWeighsLess(Obj(f), k);
      var cleaned := RemoveGenerationMetadata(r[k]);
      r := r[k := cleaned];
      left := left - {k};
    }
  }

  method CleanItems(items: seq<Json>) returns (r: seq<Json>)
    ensures r == CleanedItems(items)
    decreases Weight(Arr(items)), 0
  {
    r := items;
    for i := 0 to |items|
      invariant |r| == |items|
      invariant forall j :: 0 <= j < |items| ==> r[j] == if j < i then Cleaned(items[j]) else items[j]
    {
      ItemWeighsLess(Arr(items), i, |items|);
      var cleaned := RemoveGenerationMetadata(r[i]);
      r := r[i := cleaned];
    }
  }

  // ---------------------------------------------------------------- cleaning twice

  lemma {:induction false} CleaningTwiceChangesNothing(v: Json)
    ensures Cleaned(Cleaned(v)) == Cleaned(v)
    decreases v
  {
    match v
    case Obj(f) =>
      forall k | k in f && k !in METADATA_KEYS ensures Cleaned(Cleaned(f[k])) == Cleaned(f[k]) {
        assert f[k] < v;
        CleaningTwiceChangesNothing(f[k]);
      }
      CleanObjectIsClean(f);
    case Arr(items) =>
      CleanedArray(items);
      var c := CleanedItems(items);
      CleanedArray(c);
      forall i | 0 <= i < |c| ensures Cleaned(c[i]) == c[i] {
        assert items[i] < v;
        CleaningTwiceChangesNothing(items[i]);
      }
      assert CleanedItems(c) == c;
    case _ =>
  }

  lemma CleanObjectIsClean(f: Fields)
    requires forall k :: k in f && k !in METADATA_KEYS ==> Cleaned(Cleaned(f[k])) == Cleaned(f[k])
    ensures Cleaned(Cleaned(Obj(f))) == Cleaned(Obj(f))
  {
    var c := CleanedEntries(f - METADATA_KEYS);
    CleanedObject(f);
    assert CleanedEntries(c) == c;
    CleanEntriesAreClean(c);
  }

  lemma CleanEntriesAreClean(c: Fields)
    requires c.Keys !! METADATA_KEYS && CleanedEntries(c) == c
    ensures Cleaned(Obj(Normalized(c))) == Obj(Normalized(c))
  {
    var n := Normalized(c);
    CleanedObject(n);
    assert n - METADATA_KEYS == n;
    RewriteCommutes(c);
    assert Normalized(n) == n;
  }

  // ---------------------------------------------------------------- accepted schemas

  // A declared property that is named like a metadata key.
  ghost predicate HidesProperty(v: Json)
    decreases v, 1
  {
    HidesPropertyHere(v)
  }

  ghost predicate HidesPropertyHere(v: Json)
    decreases v, 0
  {
    v.Obj?
    && (|| !(Members(v.fields, "properties").Keys !! METADATA_KEYS)
        || (exists i :: 0 <= i < |Elements(v.fields, "anyOf")| && HidesProperty(Elements(v.fields, "anyOf")[i]))
        || (exists name :: name in Members(v.fields, "properties")
                           && HidesProperty(Members(v.fields, "properties")[name]))
        || ("items" in v.fields && HidesProperty(v.fields["items"])))
  }

  // The clean-up leaves an accepted schema alone exactly when no property is
  // named like a metadata key; it deletes such properties.
  lemma {:induction false} AcceptedSchemasAreClean(v: Json, root: bool)
    requires WellFormed(v, root)
    ensures Cleaned(v) == v <==> !HidesProperty(v)
    decreases v
  {
    var f := v.fields;
    assert WellFormedHere(v, root);
    assert HidesProperty(v) == HidesPropertyHere(v);
    var branches := Elements(f, "anyOf");
    var properties := Members(f, "properties");
    forall i | 0 <= i < |branches| ensures Cleaned(branches[i]) == branches[i] <==> !HidesProperty(branches[i]) {
      assert branches[i] < v;
      AcceptedSchemasAreClean(branches[i], false);
    }
    forall name | name in properties
      ensures Cleaned(properties[name]) == properties[name] <==> !HidesProperty(properties[name])
      ensures properties[name].Obj?
    {
      assert properties[name] < v;
      assert WellFormedHere(properties[name], false);
      AcceptedSchemasAreClean(properties[name], false);
    }
    if "items" in f {
      AcceptedSchemasAreClean(f["items"], false);
    }
    CleanNode(f, root);
    CleanProperties(properties);
    if "anyOf" in f {
      CleanedArray(branches);
      assert Cleaned(f["anyOf"]) == f["anyOf"] <==>
             forall i :: 0 <= i < |branches| ==> Cleaned(branches[i]) == branches[i];
    }
  }

  // Only the schemas below a node can make a difference to it.
  lemma CleanNode(f: Fields, root: bool)
    requires Shape(f, root)
    ensures Cleaned(Obj(f)) == Obj(f) <==>
            forall k :: k in f && k in {"anyOf", "properties", "items"} ==> Cleaned(f[k]) == f[k]
  {
    NothingToRemove(f, root);
    CleanedObject(f);
    EntriesAreFixed(f);
    forall k | k in f && k !in {"anyOf", "properties", "items"} ensures Cleaned(f[k]) == f[k] {
      CleanKeyword(f, root, k);
    }
  }

  lemma NothingToRemove(f: Fields, root: bool)
    requires Shape(f, root)
    ensures f - METADATA_KEYS == f && !Nullable(f) && !Nullable(CleanedEntries(f))
  {
    OnlyPlainTypes(f, root);
    PlainFieldsStay(f);
  }

  lemma OnlyPlainTypes(f: Fields, root: bool)
    requires Shape(f, root)
    ensures f.Keys <= ALLOWED_KEYS && ("type" in f ==> f["type"].Str?)
  {
  }

  lemma KeysAreApart()
    ensures ALLOWED_KEYS !! METADATA_KEYS
  {
  }

  lemma PlainFieldsStay(f: Fields)
    requires f.Keys <= ALLOWED_KEYS && ("type" in f ==> f["type"].Str?)
    ensures f - METADATA_KEYS == f && !Nullable(f) && !Nullable(CleanedEntries(f))
  {
    KeysAreApart();
    TypeIsUntouched(f);
  }

  lemma EntriesAreFixed(f: Fields)
    ensures CleanedEntries(f) == f <==> forall k :: k in f ==> Cleaned(f[k]) == f[k]
  {
    assert CleanedEntries(f).Keys == f.Keys;
    assert forall k :: k in f ==> CleanedEntries(f)[k] == Cleaned(f[k]);
  }

  lemma CleanKeyword(f: Fields, root: bool, k: string)
    requires Shape(f, root) && k in f && k !in {"anyOf", "properties", "items"}
    ensures Cleaned(f[k]) == f[k]
  {
    if f[k].Arr? {
      var items := f[k].items;
      CleanedArray(items);
      assert CleanedItems(items) == items;
    }
  }

  lemma CleanProperties(properties: Fields)
    requires forall name :: name in properties ==> properties[name].Obj?
    ensures Cleaned(Obj(properties)) == Obj(properties) <==>
            properties.Keys !! METADATA_KEYS
            && forall name :: name in properties ==> Cleaned(properties[name]) == properties[name]
  {
    var kept := properties - METADATA_KEYS;
    var c := CleanedEntries(kept);
    CleanedObject(properties);
    TypeIsUntouched(kept);
    assert c.Keys == kept.Keys;
    if properties.Keys !! METADATA_KEYS {
      assert kept == properties;
      assert forall name :: name in properties ==> c[name] == Cleaned(properties[name]);
    } else {
      var key :| key in properties && key in METADATA_KEYS;
      assert key !in c;
    }
  }

  // ---------------------------------------------------------------- schemas refused afterwards

  // A schema that the clean-up leaves in place requires a property that it
  // deletes. What lies below a deleted property is deleted with it.
  ghost predicate RequiresDeleted(v: Json)
    decreases v, 1
  {
    RequiresDeletedHere(v)
  }

  ghost predicate RequiresDeletedHere(v: Json)
    decreases v, 0
  {
    v.Obj?
    && (|| RequiresDeletedItself(v.fields)
        || (exists i :: 0 <= i < |Elements(v.fields, "anyOf")| && RequiresDeleted(Elements(v.fields, "anyOf")[i]))
        || (exists name :: name in Members(v.fields, "properties") - METADATA_KEYS
                           && RequiresDeleted(Members(v.fields, "properties")[name]))
        || ("items" in v.fields && RequiresDeleted(v.fields["items"])))
  }

  predicate RequiresDeletedItself(f: Fields) {
    exists i :: 0 <= i < |Elements(f, "required")| && Elements(f, "required")[i].Str?
                && Elements(f, "required")[i].s in METADATA_KEYS
  }

  // What cleaning leaves of an accepted node.
  ghost predicate CleanedFrom(c: Fields, f: Fields) {
    && c.Keys == f.Keys
    && (forall k :: k in f && k !in {"anyOf", "properties", "items"} ==> c[k] == f[k])
    && ("anyOf" in f && f["anyOf"].Arr? ==> c["anyOf"] == Arr(CleanedItems(f["anyOf"].items)))
    && ("properties" in f && f["properties"].Obj? ==>
          c["properties"] == Obj(CleanedEntries(f["properties"].fields - METADATA_KEYS)))
    && ("items" in f ==> c["items"] == Cleaned(f["items"]))
  }

  lemma NodeCleanedFrom(f: Fields, root: bool)
    requires Shape(f, root)
    requires forall name :: name in Members(f, "properties") ==> Members(f, "properties")[name].Obj?
    ensures Cleaned(Obj(f)) == Obj(CleanedEntries(f)) && CleanedFrom(CleanedEntries(f), f)
  {
    NothingToRemove(f, root);
    CleanedObject(f);
    forall k | k in f && k !in {"anyOf", "properties", "items"} ensures Cleaned(f[k]) == f[k] {
      CleanKeyword(f, root, k);
    }
    if "anyOf" in f && f["anyOf"].Arr? {
      CleanedArray(f["anyOf"].items);
    }
    if "properties" in f && f["properties"].Obj? {
      assert Members(f, "properties") == f["properties"].fields;
      PropertiesCleaned(f["properties"].fields);
    }
  }

  lemma PropertiesCleaned(properties: Fields)
    requires forall name :: name in properties ==> properties[name].Obj?
    ensures Cleaned(Obj(properties)) == Obj(CleanedEntries(properties - METADATA_KEYS))
  {
    var kept := properties - METADATA_KEYS;
    CleanedObject(properties);
    TypeIsUntouched(kept);
    assert "type" in kept ==> kept["type"].Obj?;
  }

  lemma ScalarShapeStays(f: Fields, c: Fields, schemaType: string)
    requires CleanedFrom(c, f)
    ensures ScalarShape(c, schemaType) <==> ScalarShape(f, schemaType)
  {
    assert forall k :: k !in {"anyOf", "properties", "items"} ==> Get(c, k) == Get(f, k);
  }

  lemma ArrayShapeStays(f: Fields, c: Fields, schemaType: string)
    requires CleanedFrom(c, f)
    ensures ArrayShape(c, schemaType) <==> ArrayShape(f, schemaType)
  {
    assert forall k :: k !in {"anyOf", "properties", "items"} ==> Get(c, k) == Get(f, k);
  }

  lemma RequiredStaysDeclared(names: seq<Json>, properties: Fields)
    requires RequiredFits(names, properties)
    ensures RequiredFits(names, CleanedEntries(properties - METADATA_KEYS)) <==>
            forall i :: 0 <= i < |names| ==> names[i].s !in METADATA_KEYS
  {
    var kept := CleanedEntries(properties - METADATA_KEYS);
    assert forall name :: name in kept <==> name in properties && name !in METADATA_KEYS;
  }

  lemma FewerProperties(properties: Fields)
    ensures |CleanedEntries(properties - METADATA_KEYS)| <= |properties|
    ensures NamesFit(properties) ==> NamesFit(CleanedEntries(properties - METADATA_KEYS))
  {
    var kept := CleanedEntries(properties - METADATA_KEYS);
    assert kept.Keys <= properties.Keys;
    SubsetIsSmaller(kept.Keys, properties.Keys);
    assert |kept| == |kept.Keys| && |properties| == |properties.Keys|;
  }

  lemma {:induction false} SubsetIsSmaller(a: set<string>, b: set<string>)
    requires a <= b
    ensures |a| <= |b|
    decreases |a|
  {
    if a != {} {
      var x :| x in a;
      SubsetIsSmaller(a - {x}, b - {x});
    }
  }

  lemma ObjectShapeAfter(f: Fields, c: Fields, schemaType: string)
    requires CleanedFrom(c, f) && ObjectShape(f, schemaType)
    ensures ObjectShape(c, schemaType) <==> !RequiresDeletedItself(f)
  {
    assert forall k :: k !in {"anyOf", "properties", "items"} ==> Get(c, k) == Get(f, k);
    if schemaType == "object" {
      FewerProperties(Members(f, "properties"));
      assert CleanedEntries(map[] - METADATA_KEYS) == map[];
      assert Members(c, "properties") == CleanedEntries(Members(f, "properties") - METADATA_KEYS);
      if "required" in f {
        RequiredStaysDeclared(f["required"].items, Members(f, "properties"));
        assert Elements(f, "required") == f["required"].items;
      }
    }
  }

  lemma ShapeAfter(f: Fields, c: Fields, root: bool)
    requires CleanedFrom(c, f) && Shape(f, root)
    ensures Shape(c, root) <==> !RequiresDeletedItself(f)
  {
    if "anyOf" !in f {
      ScalarShapeStays(f, c, f["type"].s);
      ArrayShapeStays(f, c, f["type"].s);
      ObjectShapeAfter(f, c, f["type"].s);
    }
  }

  /** An accepted schema is still well formed after the clean-up exactly when nothing that stays requires
      what goes. */
  lemma {:induction false} AcceptedAfterCleaning(v: Json, root: bool)
    requires WellFormed(v, root)
    ensures WellFormed(Cleaned(v), root) <==> !RequiresDeleted(v)
    decreases v
  {
    assert WellFormedHere(v, root);
    assert RequiresDeleted(v) == RequiresDeletedHere(v);
    var f := v.fields;
    var c := CleanedEntries(f);
    var branches, properties := Elements(f, "anyOf"), Members(f, "properties");
    forall i | 0 <= i < |branches| ensures WellFormed(Cleaned(branches[i]), false) <==> !RequiresDeleted(branches[i]) {
      assert branches[i] < v;
      AcceptedAfterCleaning(branches[i], false);
    }
    forall name | name in properties
      ensures WellFormed(Cleaned(properties[name]), false) <==> !RequiresDeleted(properties[name])
      ensures properties[name].Obj?
    {
      assert properties[name] < v;
      assert WellFormedHere(properties[name], false);
      AcceptedAfterCleaning(properties[name], false);
    }
    if "items" in f {
      AcceptedAfterCleaning(f["items"], false);
    }
    NodeCleanedFrom(f, root);
    ShapeAfter(f, c, root);
    ChildrenAfter(f, c, root);
  }

  lemma ChildrenAfter(f: Fields, c: Fields, root: bool)
    requires CleanedFrom(c, f) && Shape(f, root)
    ensures WellFormed(Obj(c), root) <==>
            && Shape(c, root)
            && (forall i :: 0 <= i < |Elements(f, "anyOf")| ==> WellFormed(Cleaned(Elements(f, "anyOf")[i]), false))
            && (forall name :: name in Members(f, "properties") - METADATA_KEYS ==>
                  WellFormed(Cleaned(Members(f, "properties")[name]), false))
            && ("items" in f ==> WellFormed(Cleaned(f["items"]), false))
  {
    assert WellFormed(Obj(c), root) == WellFormedHere(Obj(c), root);
    var before, after := Elements(f, "anyOf"), Elements(c, "anyOf");
    assert after == CleanedItems(before);
    assert forall i :: 0 <= i < |before| ==> after[i] == Cleaned(before[i]);
    assert CleanedEntries(map[] - METADATA_KEYS) == map[];
    var kept, members := Members(f, "properties") - METADATA_KEYS, Members(c, "properties");
    assert members == CleanedEntries(kept);
    assert forall name :: name in kept ==> members[name] == Cleaned(kept[name]);
  }

  // An object schema that only declares properties.
  function Declaring(properties: Fields): Fields {
    map["type" := Str("object"), "properties" := Obj(properties)]
  }

  lemma DeclaringShape(properties: Fields)
    requires |properties| <= MAX_PROPERTIES_PER_OBJECT && NamesFit(properties)
    ensures Shape(Declaring(properties), true)
    ensures Members(Declaring(properties), "properties") == properties
    ensures Elements(Declaring(properties), "anyOf") == [] && Elements(Declaring(properties), "required") == []
    ensures "items" !in Declaring(properties)
  {
    var f := Declaring(properties);
    assert f.Keys == {"type", "properties"};
    assert ScalarShape(f, "object") by {
      assert f.Keys * NUMERIC_BOUNDS == {};
    }
  }

  // Whatever stands below a deleted property, and whatever it requires, an object
  // with that property is well formed afterwards.
  lemma RequirementsBelowDoNotCount(inner: Json, key: string)
    requires WellFormed(inner, false) && key in METADATA_KEYS
    ensures var v := Obj(Declaring(map[key := inner])); WellFormed(v, true) && WellFormed(Cleaned(v), true)
  {
    var properties: Fields := map[key := inner];
    var v := Obj(Declaring(properties));
    assert NameFits(key);
    DeclaringShape(properties);
    assert WellFormed(v, true) == WellFormedHere(v, true);
    assert properties - METADATA_KEYS == map[];
    assert RequiresDeleted(v) == RequiresDeletedHere(v);
    AcceptedAfterCleaning(v, true);
  }
}
