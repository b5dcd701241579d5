// What the validator's budget counts: the places of a tree where a schema stands, and those of them that are
// declared properties.
module SchemaCounts {
  import opened Json
  import opened SchemaRules

  // A step down to a schema, and a place as the steps that lead to it.
  datatype Step = Branch(i: nat) | Property(name: string) | Element

  type Path = seq<Step>

  predicate HasStep(v: Json, s: Step) {
    v.Obj? &&
    match s
    case Branch(i) => i < |Elements(v.fields, "anyOf")|
    case Property(name) => name in Members(v.fields, "properties")
    case Element => "items" in v.fields
  }

  function Below(v: Json, s: Step): Json
    requires HasStep(v, s)
  {
    match s
    case Branch(i) => Elements(v.fields, "anyOf")[i]
    case Property(name) => Members(v.fields, "properties")[name]
    case Element => v.fields["items"]
  }

  predicate IsPath(v: Json, p: Path)
    decreases |p|
  {
    p == [] || (HasStep(v, p[0]) && IsPath(Below(v, p[0]), p[1..]))
  }

  // Whether a place is counted: every one as a node, those behind a property step as properties.
  predicate IsCounted(p: Path, what: What) {
    what.Nodes? || (p != [] && p[|p| - 1].Property?)
  }

  ghost function Counted(paths: set<Path>, what: What): set<Path> {
    set p | p in paths && IsCounted(p, what)
  }

  ghost predicate AllPaths(v: Json, paths: set<Path>) {
    forall p :: p in paths <==> IsPath(v, p)
  }

  // ---------------------------------------------------------------- paths behind one step

  ghost function Behind(s: Step, paths: set<Path>): set<Path> {
    set p | p in paths :: [s] + p
  }

  lemma {:induction false} BehindHasAsMany(s: Step, paths: set<Path>)
    ensures |Behind(s, paths)| == |paths|
    decreases |paths|
  {
    if paths != {} {
      var p :| p in paths;
      BehindHasAsMany(s, paths - {p});
      BehindWithout(s, paths, p);
    }
  }

  lemma BehindWithout(s: Step, paths: set<Path>, p: Path)
    requires p in paths
    ensures Behind(s, paths) == Behind(s, paths - {p}) + {[s] + p}
    ensures [s] + p !in Behind(s, paths - {p})
  {
    BehindMembers(s, paths - {p});
    assert ([s] + p)[1..] == p;
  }

  lemma BehindMembers(s: Step, paths: set<Path>)
    ensures forall p :: p in Behind(s, paths) <==> p != [] && p[0] == s && p[1..] in paths
  {
    forall p
      ensures p in Behind(s, paths) <==> p != [] && p[0] == s && p[1..] in paths
    {
      if p != [] && p[0] == s && p[1..] in paths {
        assert p == [s] + p[1..];
      }
      if p in Behind(s, paths) {
        var q :| q in paths && p == [s] + q;
        assert p[1..] == q;
      }
    }
  }

  // A property step makes one place more of what counts as a property.
  lemma CountedBehind(s: Step, paths: set<Path>, what: What)
    requires [] in paths
    ensures |Counted(Behind(s, paths), what)|
            == |Counted(paths, what)| + (if what.Properties? && s.Property? then 1 else 0)
  {
    var behind, first := Behind(s, Counted(paths, what)), FirstCounted(s, what);
    BehindHasAsMany(s, Counted(paths, what));
    forall p: Path
      ensures p in Counted(Behind(s, paths), what) <==> p in behind + first
      ensures !(p in behind && p in first)
    {
      CountedBehindAt(s, paths, what, p);
    }
    assert behind !! first;
    assert Counted(Behind(s, paths), what) == behind + first;
  }

  // The step itself, if it counts and what it starts from does not.
  ghost function FirstCounted(s: Step, what: What): set<Path> {
    if what.Properties? && s.Property? then {[s]} else {}
  }

  lemma CountedBehindAt(s: Step, paths: set<Path>, what: What, p: Path)
    requires [] in paths
    ensures p in Counted(Behind(s, paths), what) <==>
            p in Behind(s, Counted(paths, what)) || p in FirstCounted(s, what)
    ensures !(p in Behind(s, Counted(paths, what)) && p in FirstCounted(s, what))
  {
    BehindMembers(s, paths);
    BehindMembers(s, Counted(paths, what));
    if p != [] && p[0] == s {
      LastBehind(s, p);
    }
  }

  lemma LastBehind(s: Step, p: Path)
    requires p != [] && p[0] == s
    ensures p[1..] == [] <==> p == [s]
    ensures p[1..] != [] ==> p[|p| - 1] == p[1..][|p[1..]| - 1]
  {
    assert p == [s] + p[1..];
  }

  lemma CountedTogether(a: set<Path>, b: set<Path>, what: What)
    requires a !! b
    ensures |Counted(a + b, what)| == |Counted(a, what)| + |Counted(b, what)|
  {
    assert Counted(a + b, what) == Counted(a, what) + Counted(b, what);
  }

  // ---------------------------------------------------------------- all paths of a tree

  // The paths of a node whose first step is one of these.
  ghost predicate PathsBy(v: Json, steps: set<Step>, paths: set<Path>) {
    forall p :: p in paths <==> p != [] && p[0] in steps && IsPath(v, p)
  }

  lemma OneStep(v: Json, s: Step, below: set<Path>)
    requires HasStep(v, s) && AllPaths(Below(v, s), below)
    ensures PathsBy(v, {s}, Behind(s, below))
  {
    BehindMembers(s, below);
  }

  lemma TwoParts(v: Json, a: set<Step>, b: set<Step>, pa: set<Path>, pb: set<Path>, what: What)
    requires PathsBy(v, a, pa) && PathsBy(v, b, pb) && a !! b
    ensures PathsBy(v, a + b, pa + pb)
    ensures |Counted(pa + pb, what)| == |Counted(pa, what)| + |Counted(pb, what)|
  {
    CountedTogether(pa, pb, what);
  }

  // The paths through one child, and how many of them count.
  lemma ThroughChild(v: Json, s: Step, what: What) returns (paths: set<Path>)
    requires HasStep(v, s)
    ensures PathsBy(v, {s}, paths)
    ensures |Counted(paths, what)| == Count(Below(v, s), what) + (if what.Properties? && s.Property? then 1 else 0)
    decreases v, 0, 0
  {
    StepGoesDown(v, s);
    var below := PathsAreCounted(Below(v, s), what);
    OneStep(v, s, below);
    assert IsPath(Below(v, s), []);
    CountedBehind(s, below, what);
    paths := Behind(s, below);
  }

  lemma StepGoesDown(v: Json, s: Step)
    requires HasStep(v, s)
    ensures Below(v, s) < v
  {
  }

  function BranchSteps(n: nat): set<Step> {
    set i | 0 <= i < n :: Branch(i)
  }

  function PropertySteps(names: set<string>): set<Step> {
    set name | name in names :: Property(name)
  }

  lemma ThroughBranches(v: Json, n: nat, what: What) returns (paths: set<Path>)
    requires v.Obj? && n <= |Elements(v.fields, "anyOf")|
    ensures PathsBy(v, BranchSteps(n), paths) && |Counted(paths, what)| == CountBranches(v, n, what)
    decreases v, 1, n
  {
    if n == 0 {
      paths := {};
    } else {
      var fewer := ThroughBranches(v, n - 1, what);
      var last := ThroughChild(v, Branch(n - 1), what);
      assert BranchSteps(n) == BranchSteps(n - 1) + {Branch(n - 1)};
      TwoParts(v, BranchSteps(n - 1), {Branch(n - 1)}, fewer, last, what);
      paths := fewer + last;
    }
  }

  lemma ThroughProperties(v: Json, names: set<string>, what: What) returns (paths: set<Path>)
    requires v.Obj? && names <= Members(v.fields, "properties").Keys
    ensures PathsBy(v, PropertySteps(names), paths)
    ensures |Counted(paths, what)| == CountMembers(v, names, what) + (if what.Properties? then |names| else 0)
    decreases v, 1, |names|
  {
    if names == {} {
      paths := {};
    } else {
      var name :| name in names;
      CountPick(v, names, name, what);
      var fewer := ThroughProperties(v, names - {name}, what);
      var one := ThroughChild(v, Property(name), what);
      assert PropertySteps(names) == PropertySteps(names - {name}) + {Property(name)};
      TwoParts(v, PropertySteps(names - {name}), {Property(name)}, fewer, one, what);
      paths := fewer + one;
    }
  }

  lemma ThroughItems(v: Json, what: What) returns (paths: set<Path>)
    requires v.Obj?
    ensures PathsBy(v, {Element}, paths)
    ensures |Counted(paths, what)| == if "items" in v.fields then Count(v.fields["items"], what) else 0
    decreases v, 1, 0
  {
    if "items" in v.fields {
      paths := ThroughChild(v, Element, what);
    } else {
      paths := {};
      assert forall p: Path :: p != [] && p[0] == Element ==> !IsPath(v, p);
    }
  }

  lemma WithoutSteps(v: Json, paths: set<Path>)
    requires !v.Obj? || PathsBy(v, BranchSteps(|Elements(v.fields, "anyOf")|)
                                   + PropertySteps(Members(v.fields, "properties").Keys) + {Element}, paths)
    requires !v.Obj? ==> paths == {}
    ensures AllPaths(v, paths + {[]})
  {
    forall p
      ensures p in paths + {[]} <==> IsPath(v, p)
    {
    }
  }

  /** A tree has finitely many places, the validator counts each of them once as a node, and once as a property
      if and only if it is a declared property. */
  lemma {:induction false} PathsAreCounted(v: Json, what: What) returns (paths: set<Path>)
    ensures AllPaths(v, paths) && |Counted(paths, what)| == Count(v, what)
    decreases v, 2, 0
  {
    var below: set<Path> := {};
    if v.Obj? {
      var keys := Members(v.fields, "properties").Keys;
      var n := |Elements(v.fields, "anyOf")|;
      var a := ThroughBranches(v, n, what);
      var b := ThroughProperties(v, keys, what);
      var c := ThroughItems(v, what);
      TwoParts(v, BranchSteps(n), PropertySteps(keys), a, b, what);
      TwoParts(v, BranchSteps(n) + PropertySteps(keys), {Element}, a + b, c, what);
      below := a + b + c;
      assert |keys| == |Members(v.fields, "properties")|;
    }
    WithoutSteps(v, below);
    CountedTogether(below, {[]}, what);
    assert Counted({[]}, what) == if what.Nodes? then {[]} else {};
    paths := below + {[]};
  }
}
