// What a debounce window gets wrong when its targets are used again: exactly which paths go unreported,
// and exactly which events are untrue (crates/change-tracker/src/watch.rs:568-617, 797-809).
module WatchLosses {
  import opened Wrappers
  import opened WatchBuffer
  import opened WatchWindow

  // ---------------------------------------------------------------- unreported paths

  // A path that appeared or disappeared without any event saying so.
  ghost predicate IsUnreported(w: Window, root: Path, p: Path) {
    Changed(w, p) && Key(root, p) !in w.buffer.pending && !NamedAsSource(w.buffer, root, p)
  }

  ghost function Unreported(w: Window, root: Path): set<Path> {
    set p | p in w.start + w.world.Keys && IsUnreported(w, root, p)
  }

  lemma UnreportedIs(w: Window, root: Path, p: Path)
    ensures p in Unreported(w, root) <==> IsUnreported(w, root, p)
  {
  }

  lemma CoveredMeansNoneUnreported(w: Window, root: Path)
    ensures Covered(w, root) <==> Unreported(w, root) == {}
  {
    if Unreported(w, root) == {} {
      forall p | Changed(w, p) ensures Key(root, p) in w.buffer.pending || NamedAsSource(w.buffer, root, p) {
        UnreportedIs(w, root, p);
      }
    }
  }

  // The moved path itself disappears although a change is pending there that does not speak of it,
  // and no other rename names it.
  ghost predicate LosesMovedPath(w: Window, root: Path, from: Path, to: Path) {
    && from in w.start
    && Get(w.buffer.pending, Key(root, from)) in {Some(Created), Some(Renamed)}
    && !Named(w.buffer, root, from, to)
  }

  // The overwritten target held the only record of a path that is still gone.
  ghost predicate LosesOverwrittenSource(w: Window, root: Path, from: Path, to: Path) {
    && Key(root, to) in w.buffer.renames
    && var source := w.buffer.renames[Key(root, to)];
       && source != from && source != to && Changed(w, source)
       && Key(root, source) !in w.buffer.pending && !Named(w.buffer, root, source, to)
  }

  // What an operation drops: only a rename drops anything, two paths at most.
  ghost function Dropped(w: Window, root: Path, op: FsOp): set<Path> {
    if !op.Move? then {}
    else
      (if LosesMovedPath(w, root, op.path, op.to) then {op.path} else {})
      + (if LosesOverwrittenSource(w, root, op.path, op.to) then {w.buffer.renames[Key(root, op.to)]} else {})
  }

  predicate Touches(op: FsOp, p: Path) {
    op.path == p || (op.Move? && op.to == p)
  }

  lemma MoveKeepsOthers(w: Window, root: Path, op: FsOp, p: Path)
    requires Consistent(w.buffer) && op.Move? && Possible(w.world, op) && p != op.path && p != op.to
    ensures var w' := Observe(w, root, op);
      && (Changed(w', p) <==> Changed(w, p))
      && (Key(root, p) in w'.buffer.pending <==> Key(root, p) in w.buffer.pending)
      && (NamedAsSource(w'.buffer, root, p) <==> Named(w.buffer, root, p, op.to))
  {
    var w' := Observe(w, root, op);
    var from, to := Key(root, op.path), Key(root, op.to);
    if NamedAsSource(w'.buffer, root, p) {
      var q :| Key(root, q) in w'.buffer.renames && w'.buffer.renames[Key(root, q)] == p;
      var q' := if q == op.to then op.path else q;
      assert Key(root, q') in w.buffer.renames && w.buffer.renames[Key(root, q')] == p && q' != op.to;
    }
    if Named(w.buffer, root, p, op.to) {
      var q :| q != op.to && Key(root, q) in w.buffer.renames && w.buffer.renames[Key(root, q)] == p;
      var q' := if q == op.path then op.to else q;
      assert Key(root, q') in w'.buffer.renames && w'.buffer.renames[Key(root, q')] == p;
    }
  }

  lemma MovedPathIsNamed(w: Window, root: Path, op: FsOp)
    requires Consistent(w.buffer) && op.Move? && Possible(w.world, op)
    ensures var w' := Observe(w, root, op);
      NamedAsSource(w'.buffer, root, op.path) <==>
        Get(w.buffer.pending, Key(root, op.path)) !in {Some(Created), Some(Renamed)}
            || Named(w.buffer, root, op.path, op.to)
  {
    var w' := Observe(w, root, op);
    var from, to := Key(root, op.path), Key(root, op.to);
    var kind := Get(w.buffer.pending, from);
    if kind !in {Some(Created), Some(Renamed)} {
      assert to in w'.buffer.renames && w'.buffer.renames[to] == op.path;
    } else {
      if NamedAsSource(w'.buffer, root, op.path) {
        var q :| Key(root, q) in w'.buffer.renames && w'.buffer.renames[Key(root, q)] == op.path;
        var q' := if q == op.to then op.path else q;
        assert Key(root, q') in w.buffer.renames && w.buffer.renames[Key(root, q')] == op.path && q' != op.to;
      }
      if Named(w.buffer, root, op.path, op.to) {
        var q :| q != op.to && Key(root, q) in w.buffer.renames && w.buffer.renames[Key(root, q)] == op.path;
        var q' := if q == op.path then op.to else q;
        assert Key(root, q') in w'.buffer.renames && w'.buffer.renames[Key(root, q')] == op.path;
      }
    }
  }

  lemma MoveUpdatesUnreported(w: Window, root: Path, op: FsOp, p: Path)
    requires Consistent(w.buffer) && op.Move? && Possible(w.world, op)
    ensures IsUnreported(Observe(w, root, op), root, p) <==>
            p in Dropped(w, root, op) || (IsUnreported(w, root, p) && !Touches(op, p))
  {
    var w' := Observe(w, root, op);
    if p == op.path {
      MovedPathIsNamed(w, root, op);
      assert Key(root, p) !in w'.buffer.pending;
    } else if p == op.to {
      assert Key(root, p) in w'.buffer.pending;
    } else {
      MoveKeepsOthers(w, root, op, p);
      OnlyNamedBy(w.buffer, root, p, op.to);
    }
  }

  lemma OnlyNamedBy(b: Buffer, root: Path, p: Path, q: Path)
    ensures NamedAsSource(b, root, p) <==>
            Named(b, root, p, q) || (Key(root, q) in b.renames && b.renames[Key(root, q)] == p)
  {
    if NamedAsSource(b, root, p) && !(Key(root, q) in b.renames && b.renames[Key(root, q)] == p) {
      var r :| Key(root, r) in b.renames && b.renames[Key(root, r)] == p;
      assert r != q;
    }
  }

  /** The exact update of the unreported paths: an operation adds what it drops, and settles what it touches. */
  lemma OperationUpdatesUnreported(w: Window, root: Path, op: FsOp, p: Path)
    requires Consistent(w.buffer) && Possible(w.world, op)
    ensures p in Unreported(Observe(w, root, op), root) <==>
            p in Dropped(w, root, op) || (p in Unreported(w, root) && !Touches(op, p))
  {
    var w' := Observe(w, root, op);
    UnreportedIs(w, root, p);
    UnreportedIs(w', root, p);
    if op.Move? {
      MoveUpdatesUnreported(w, root, op, p);
    } else {
      assert w'.buffer.renames == w.buffer.renames;
      assert p != op.path ==> (Changed(w', p) <==> Changed(w, p));
    }
  }

  /** In a window that has reported everything so far, one operation loses a path exactly when it drops one. */
  lemma RenameLosesExactly(w: Window, root: Path, op: FsOp)
    requires Consistent(w.buffer) && Covered(w, root) && Possible(w.world, op)
    ensures Covered(Observe(w, root, op), root) <==> Dropped(w, root, op) == {}
  {
    CoveredMeansNoneUnreported(w, root);
    CoveredMeansNoneUnreported(Observe(w, root, op), root);
    forall p ensures p in Unreported(Observe(w, root, op), root) <==> p in Dropped(w, root, op) {
      OperationUpdatesUnreported(w, root, op, p);
    }
  }

  predicate Untouched(ops: seq<FsOp>, p: Path) {
    forall i :: 0 <= i < |ops| ==> !Touches(ops[i], p)
  }

  // Some rename of the window drops the path, and nothing later touches it.
  ghost predicate LostIn(w: Window, root: Path, ops: seq<FsOp>, p: Path)
    requires Plays(w, root, ops)
    decreases |ops|
  {
    ops != [] && (
      || (p in Dropped(w, root, ops[0]) && Untouched(ops[1..], p))
      || LostIn(Observe(w, root, ops[0]), root, ops[1..], p))
  }

  lemma {:induction false} WindowUpdatesUnreported(w: Window, root: Path, ops: seq<FsOp>, p: Path)
    requires Consistent(w.buffer) && Plays(w, root, ops)
    ensures p in Unreported(After(w, root, ops), root) <==>
            LostIn(w, root, ops, p) || (p in Unreported(w, root) && Untouched(ops, p))
    decreases |ops|
  {
    if ops != [] {
      var op, rest := ops[0], ops[1..];
      RecordStaysConsistent(w.buffer, root, op);
      OperationUpdatesUnreported(w, root, op, p);
      WindowUpdatesUnreported(Observe(w, root, op), root, rest, p);
      assert Untouched(ops, p) <==> !Touches(op, p) && Untouched(rest, p) by {
        assert forall i :: 0 <= i < |rest| ==> rest[i] == ops[i + 1];
        assert forall i :: 1 <= i < |ops| ==> ops[i] == rest[i - 1];
      }
    }
  }

  ghost predicate Loses(start: set<Path>, root: Path, ops: seq<FsOp>, p: Path)
    requires Plays(Open(start), root, ops)
  {
    LostIn(Open(start), root, ops, p)
  }

  /** The whole window, with targets used again at will: a path goes unreported if and only if a rename drops
      it and nothing later touches it. In particular every change is reported if and only if no path is
      lost in this way. */
  lemma WindowLosesExactly(start: set<Path>, root: Path, ops: seq<FsOp>)
    requires Plays(Open(start), root, ops)
    ensures var w := After(Open(start), root, ops);
      && (forall p :: p in Unreported(w, root) <==> Loses(start, root, ops, p))
      && (Covered(w, root) <==> forall p :: !Loses(start, root, ops, p))
  {
    var w := After(Open(start), root, ops);
    forall p ensures p in Unreported(w, root) <==> Loses(start, root, ops, p) {
      WindowUpdatesUnreported(Open(start), root, ops, p);
    }
    CoveredMeansNoneUnreported(w, root);
    if forall p :: !Loses(start, root, ops, p) {
      assert Unreported(w, root) == {};
    }
  }

  // ---------------------------------------------------------------- below a moved directory

  function Arrivals(below: map<Path, Path>): set<Path> {
    set p | p in below :: below[p]
  }

  // The files below a moved directory, old paths and new: they move with it, and no event names them.
  predicate CanCarry(world: World, below: map<Path, Path>) {
    && below.Keys <= world.Keys
    && (forall p, q :: p in below && q in below && below[p] == below[q] ==> p == q)
    && Arrivals(below) !! world.Keys
  }

  function Carried(world: World, below: map<Path, Path>): World
    requires CanCarry(world, below)
  {
    (world - below.Keys) + map p | p in below :: below[p] := world[p]
  }

  function Carry(w: Window, below: map<Path, Path>): Window
    requires CanCarry(w.world, below)
  {
    w.(world := Carried(w.world, below))
  }

  lemma CarriedPaths(world: World, below: map<Path, Path>, p: Path)
    requires CanCarry(world, below)
    ensures p in Carried(world, below) <==> p in Arrivals(below) || (p in world && p !in below)
    ensures p in below ==> below[p] in Carried(world, below) && Carried(world, below)[below[p]] == world[p]
  {
    if p in Arrivals(below) {
      var q :| q in below && below[q] == p;
      assert p in Carried(world, below);
    }
  }

  /** The exact update: a path that is carried away or carried to goes unreported if and only if that changes
      it and nothing in the buffer names it; every other path stays as it was. */
  lemma CarryingUpdatesUnreported(w: Window, root: Path, below: map<Path, Path>, p: Path)
    requires CanCarry(w.world, below)
    ensures p in Unreported(Carry(w, below), root) <==>
            if p in below.Keys + Arrivals(below) then
              && (p in below <==> p in w.start)
              && Key(root, p) !in w.buffer.pending && !NamedAsSource(w.buffer, root, p)
            else p in Unreported(w, root)
  {
    UnreportedIs(w, root, p);
    UnreportedIs(Carry(w, below), root, p);
    CarriedPaths(w.world, below, p);
  }

  /** So renaming a directory leaves unreported exactly the old and the new paths of the files below it. */
  lemma MovedDirectoryHidesItsFiles(root: Path, from: Path, to: Path, files: set<Path>, below: map<Path, Path>)
    requires from !in files && to !in files + {from} && below.Keys == files
    requires forall p, q :: p in below && q in below && below[p] == below[q] ==> p == q
    requires Arrivals(below) !! files + {from, to}
    ensures var w := Observe(Open(files + {from}), root, Move(from, to, Some(true)));
      CanCarry(w.world, below) && Unreported(Carry(w, below), root) == files + Arrivals(below)
  {
    var w := Observe(Open(files + {from}), root, Move(from, to, Some(true)));
    assert w.world.Keys == files + {to};
    assert w.buffer.pending.Keys == {Key(root, to)};
    assert w.buffer.renames == map[Key(root, to) := from];
    forall p ensures p in Unreported(Carry(w, below), root) <==> p in files + Arrivals(below) {
      CarryingUpdatesUnreported(w, root, below, p);
      UnreportedIs(w, root, p);
      NamedOnlyFrom(w.buffer, root, to, from, p);
    }
  }

  lemma NamedOnlyFrom(b: Buffer, root: Path, to: Path, from: Path, p: Path)
    requires b.renames == map[Key(root, to) := from]
    ensures NamedAsSource(b, root, p) <==> p == from
  {
    if p == from {
      assert b.renames[Key(root, to)] == p;
    }
  }

  // ---------------------------------------------------------------- untrue events

  // What any window knows: a path pending as created holds a new file, and a file whose path is pending
  // as neither created nor renamed never moved.
  ghost predicate KnowsOrigins(w: Window, root: Path) {
    && Consistent(w.buffer)
    && (forall p :: Get(w.buffer.pending, Key(root, p)) == Some(Created) ==> p in w.world && w.world[p] == Fresh)
    && (forall p :: p in w.world && Get(w.buffer.pending, Key(root, p)) !in {Some(Created), Some(Renamed)} ==>
      w.world[p] == Original(p))
  }

  lemma OperationKnowsOrigins(w: Window, root: Path, op: FsOp)
    requires KnowsOrigins(w, root) && Possible(w.world, op)
    ensures KnowsOrigins(Observe(w, root, op), root)
  {
    RecordStaysConsistent(w.buffer, root, op);
  }

  // A created path that existed before, or a rename that names another file's path.
  predicate IsUntrue(w: Window, root: Path, p: Path) {
    || (Get(w.buffer.pending, Key(root, p)) == Some(Created) && p in w.start)
    || (Key(root, p) in w.buffer.renames && p in w.world && w.world[p] != Original(w.buffer.renames[Key(root, p)]))
  }

  lemma TruthfulMeansNoneUntrue(w: Window, root: Path)
    requires KnowsOrigins(w, root)
    ensures Truthful(w, root) <==> forall p :: !IsUntrue(w, root, p)
  {
    if forall p :: !IsUntrue(w, root, p) {
      forall p | Key(root, p) in w.buffer.renames && p in w.world
        ensures w.world[p] == Original(w.buffer.renames[Key(root, p)])
      {
        assert !IsUntrue(w, root, p);
      }
      forall p | Get(w.buffer.pending, Key(root, p)) == Some(Created)
        ensures p !in w.start && p in w.world && w.world[p] == Fresh
      {
        assert !IsUntrue(w, root, p);
      }
    }
  }

  // Whether an operation makes the event for its own target untrue.
  predicate MakesUntrue(w: Window, root: Path, op: FsOp) {
    match op
    case Create(p, _) => p in w.start || Get(w.buffer.pending, Key(root, p)) == Some(Renamed)
    case Move(p, q, _) =>
      || (Get(w.buffer.pending, Key(root, p)) == Some(Created) && q in w.start)
      || (Get(w.buffer.pending, Key(root, p)) == Some(Renamed) && IsUntrue(w, root, p))
    case _ => false
  }

  /** The exact update of the untrue events, in every window. */
  lemma OperationUpdatesUntrue(w: Window, root: Path, op: FsOp, p: Path)
    requires KnowsOrigins(w, root) && Possible(w.world, op)
    ensures IsUntrue(Observe(w, root, op), root, p) <==>
            if Target(op) == Some(p) then MakesUntrue(w, root, op)
            else IsUntrue(w, root, p) && (op.Modify? || op.path != p)
  {
    var w' := Observe(w, root, op);
    if op.Move? && p == op.to {
      MoveMakesUntrue(w, root, op);
    } else if op.Move? && p == op.path {
      assert Key(root, p) !in w'.buffer.pending && Key(root, p) !in w'.buffer.renames;
    }
  }

  lemma MoveMakesUntrue(w: Window, root: Path, op: FsOp)
    requires KnowsOrigins(w, root) && op.Move? && Possible(w.world, op)
    ensures IsUntrue(Observe(w, root, op), root, op.to) <==> MakesUntrue(w, root, op)
  {
    var w', from, to := Observe(w, root, op), Key(root, op.path), Key(root, op.to);
    assert w'.world[op.to] == w.world[op.path];
    if Get(w.buffer.pending, from) == Some(Created) {
      assert w'.buffer.pending[to] == Created && to !in w'.buffer.renames;
    } else {
      assert w'.buffer.renames[to] == SourceOf(w.buffer, from);
    }
  }

  /** So one operation keeps a truthful window truthful if and only if it creates no path that existed before
      or that is pending as renamed, and moves no new file over a path that existed before. */
  lemma OperationKeepsTruthExactly(w: Window, root: Path, op: FsOp)
    requires KnowsOrigins(w, root) && Truthful(w, root) && Possible(w.world, op)
    ensures Truthful(Observe(w, root, op), root) <==>
      match op
      case Create(p, _) => p !in w.start && Get(w.buffer.pending, Key(root, p)) != Some(Renamed)
      case Move(p, q, _) => Get(w.buffer.pending, Key(root, p)) == Some(Created) ==> q !in w.start
      case _ => true
  {
    OperationKnowsOrigins(w, root, op);
    TruthfulMeansNoneUntrue(w, root);
    TruthfulMeansNoneUntrue(Observe(w, root, op), root);
    forall p
      ensures IsUntrue(Observe(w, root, op), root, p) <==> Target(op) == Some(p) && MakesUntrue(w, root, op)
    {
      OperationUpdatesUntrue(w, root, op, p);
    }
    if Target(op).Some? {
      assert IsUntrue(Observe(w, root, op), root, Target(op).value) <==> MakesUntrue(w, root, op);
    }
  }

  // The event for a path is untrue after a window: some operation made it so, or carried an untrue one
  // there, and no later one took the path away or made its event anew.
  ghost predicate UntrueIn(w: Window, root: Path, ops: seq<FsOp>, p: Path)
    requires Plays(w, root, ops)
    decreases |ops|
  {
    ops != [] && (
      || (Target(ops[0]) == Some(p) && MakesUntrue(w, root, ops[0]) && Undisturbed(ops[1..], p))
      || UntrueIn(Observe(w, root, ops[0]), root, ops[1..], p))
  }

  predicate Undisturbed(ops: seq<FsOp>, p: Path) {
    forall i :: 0 <= i < |ops| ==> Target(ops[i]) != Some(p) && (ops[i].Modify? || ops[i].path != p)
  }

  lemma {:induction false} WindowUpdatesUntrue(w: Window, root: Path, ops: seq<FsOp>, p: Path)
    requires KnowsOrigins(w, root) && Plays(w, root, ops)
    ensures KnowsOrigins(After(w, root, ops), root)
    ensures IsUntrue(After(w, root, ops), root, p) <==>
            UntrueIn(w, root, ops, p) || (IsUntrue(w, root, p) && Undisturbed(ops, p))
    decreases |ops|
  {
    if ops != [] {
      var op, rest := ops[0], ops[1..];
      OperationKnowsOrigins(w, root, op);
      OperationUpdatesUntrue(w, root, op, p);
      WindowUpdatesUntrue(Observe(w, root, op), root, rest, p);
      assert Undisturbed(ops, p) <==> Target(op) != Some(p) && (op.Modify? || op.path != p) && Undisturbed(rest, p) by {
        assert forall i :: 0 <= i < |rest| ==> rest[i] == ops[i + 1];
        assert forall i :: 1 <= i < |ops| ==> ops[i] == rest[i - 1];
      }
    }
  }

  ghost predicate Misleads(start: set<Path>, root: Path, ops: seq<FsOp>, p: Path)
    requires Plays(Open(start), root, ops)
  {
    UntrueIn(Open(start), root, ops, p)
  }

  /** The whole window: the event for a path is untrue if and only if an operation leaves it so, and the
      window is truthful if and only if none does. */
  lemma WindowMisleadsExactly(start: set<Path>, root: Path, ops: seq<FsOp>)
    requires Plays(Open(start), root, ops)
    ensures var w := After(Open(start), root, ops);
      && (forall p :: IsUntrue(w, root, p) <==> Misleads(start, root, ops, p))
      && (Truthful(w, root) <==> forall p :: !Misleads(start, root, ops, p))
  {
    var w := After(Open(start), root, ops);
    WindowUpdatesUntrue(Open(start), root, ops, 0);
    forall p ensures IsUntrue(w, root, p) <==> Misleads(start, root, ops, p) {
      WindowUpdatesUntrue(Open(start), root, ops, p);
    }
    TruthfulMeansNoneUntrue(w, root);
  }

  // ---------------------------------------------------------------- windows that go wrong

  // A window of three operations, played from its opening.
  function Three(start: set<Path>, root: Path, a: FsOp, b: FsOp, c: FsOp): Option<Window> {
    var w0 := Open(start);
    if !Possible(w0.world, a) then None
    else
      var w1 := Observe(w0, root, a);
      if !Possible(w1.world, b) then None
      else
        var w2 := Observe(w1, root, b);
        if !Possible(w2.world, c) then None else Some(Observe(w2, root, c))
  }

  /** Removing a file, creating it anew and renaming it loses the removal. */
  lemma ReplacedFileIsLost(root: Path)
    ensures var w := Three({1}, root, Remove(1, None), Create(1, None), Move(1, 2, None));
      w.Some? && IsUnreported(w.value, root, 1)
  {
    var w := Three({1}, root, Remove(1, None), Create(1, None), Move(1, 2, None));
    assert w.value.buffer.pending == map[Key(root, 2) := Created];
    assert w.value.buffer.renames == map[];
  }

  /** Renaming onto a renamed and removed path loses the first source. */
  lemma OverwrittenSourceIsLost(root: Path)
    ensures var w := Three({1, 3}, root, Move(1, 2, None), Remove(2, None), Move(3, 2, None));
      w.Some? && IsUnreported(w.value, root, 1)
  {
    var w := Three({1, 3}, root, Move(1, 2, None), Remove(2, None), Move(3, 2, None));
    assert w.value.buffer.pending == map[Key(root, 2) := Renamed];
    assert w.value.buffer.renames == map[Key(root, 2) := 3];
  }

  /** Passing another file through the path of a removed one loses the removal. */
  lemma PassedThroughPathIsLost(root: Path)
    ensures var w := Three({1, 3}, root, Remove(1, None), Move(3, 1, None), Move(1, 2, None));
      w.Some? && IsUnreported(w.value, root, 1)
  {
    var w := Three({1, 3}, root, Remove(1, None), Move(3, 1, None), Move(1, 2, None));
    assert w.value.buffer.pending == map[Key(root, 2) := Renamed];
    assert w.value.buffer.renames == map[Key(root, 2) := 3];
  }

  /** Removing a file, creating it anew and editing it is reported as a creation, although the path existed. */
  lemma RecreatedFileIsCalledNew(root: Path)
    ensures var w := Three({1}, root, Remove(1, None), Create(1, None), Modify(1, None));
      w.Some? && Get(w.value.buffer.pending, Key(root, 1)) == Some(Created) && 1 in w.value.start
  {
  }

  /** Renaming a file, removing it and creating another one there is reported as the rename. */
  lemma NewFileIsCalledRenamed(root: Path)
    ensures var w := Three({1}, root, Move(1, 2, None), Remove(2, None), Create(2, None));
      && w.Some? && w.value.world[2] == Fresh
      && EventOf(w.value.buffer, Key(root, 2), 1).kind == Renamed
      && EventOf(w.value.buffer, Key(root, 2), 1).from == Some(1)
  {
    var w := Three({1}, root, Move(1, 2, None), Remove(2, None), Create(2, None));
    assert w.value.buffer.pending == map[Key(root, 2) := Renamed];
  }
}
