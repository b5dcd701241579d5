// What one debounce window of crates/change-tracker/src/watch.rs tells about the files below a root:
// the net effect of any sequence of file operations, and the windows that lose a source path.
module WatchWindow {
  import opened Wrappers
  import opened WatchBuffer

  // Where a file now at some path came from.
  datatype Origin = Original(path: Path) | Fresh

  type World = map<Path, Origin>

  datatype FsOp =
    | Create(path: Path, isDirectory: Option<bool>)
    | Remove(path: Path, isDirectory: Option<bool>)
    | Modify(path: Path, isDirectory: Option<bool>)
    | Move(path: Path, to: Path, isDirectory: Option<bool>)

  predicate Possible(w: World, op: FsOp) {
    match op
    case Create(p, _) => p !in w
    case Move(p, q, _) => p in w && p != q
    case _ => op.path in w
  }

  function Apply(w: World, op: FsOp): World
    requires Possible(w, op)
  {
    match op
    case Create(p, _) => w[p := Fresh]
    case Remove(p, _) => w - {p}
    case Modify(_, _) => w
    case Move(p, q, _) => (w - {p})[q := w[p]]
  }

  function Untouched(start: set<Path>): World {
    map p | p in start :: Original(p)
  }

  // The change the watcher records for an operation it sees in full.
  function Record(b: Buffer, root: Path, op: FsOp): Buffer {
    match op
    case Create(p, d) => RecordPending(b, Key(root, p), Created, d)
    case Remove(p, d) => RecordPending(b, Key(root, p), Removed, d)
    case Modify(p, d) => RecordPending(b, Key(root, p), Modified, d)
    case Move(p, q, d) => RecordRenamed(b, Key(root, p), Key(root, q), d)
  }

  // A window: the files that existed when it opened, the files now, and the buffer.
  datatype Window = Window(start: set<Path>, world: World, buffer: Buffer)

  function Open(start: set<Path>): Window {
    Window(start, Untouched(start), EMPTY_BUFFER)
  }

  function Observe(w: Window, root: Path, op: FsOp): Window
    requires Possible(w.world, op)
  {
    w.(world := Apply(w.world, op), buffer := Record(w.buffer, root, op))
  }

  ghost predicate Plays(w: Window, root: Path, ops: seq<FsOp>)
    decreases |ops|
  {
    ops == [] || (Possible(w.world, ops[0]) && Plays(Observe(w, root, ops[0]), root, ops[1..]))
  }

  ghost function After(w: Window, root: Path, ops: seq<FsOp>): Window
    requires Plays(w, root, ops)
    decreases |ops|
  {
    if ops == [] then w else After(Observe(w, root, ops[0]), root, ops[1..])
  }

  // ---------------------------------------------------------------- net effect

  ghost predicate Named(b: Buffer, root: Path, p: Path, besides: Path) {
    exists q :: q != besides && Key(root, q) in b.renames && b.renames[Key(root, q)] == p
  }

  ghost predicate NamedAsSource(b: Buffer, root: Path, p: Path) {
    exists q :: Key(root, q) in b.renames && b.renames[Key(root, q)] == p
  }

  predicate Changed(w: Window, p: Path) {
    p in w.start <==> p !in w.world
  }

  // Every path that appeared or disappeared is reported, as a path or as a source.
  ghost predicate Covered(w: Window, root: Path) {
    forall p :: Changed(w, p) ==> Key(root, p) in w.buffer.pending || NamedAsSource(w.buffer, root, p)
  }

  // Every rename names the path its file had when the window opened, and every creation is one.
  ghost predicate Truthful(w: Window, root: Path) {
    && (forall p :: Key(root, p) in w.buffer.renames && p in w.world ==>
      w.world[p] == Original(w.buffer.renames[Key(root, p)]))
    && (forall p :: Get(w.buffer.pending, Key(root, p)) == Some(Created) ==>
      p !in w.start && p in w.world && w.world[p] == Fresh)
  }

  function Target(op: FsOp): Option<Path> {
    match op
    case Create(p, _) => Some(p)
    case Move(_, q, _) => Some(q)
    case _ => None
  }

  // No path is created or renamed to twice, or when it existed as the window opened.
  ghost predicate FreshTargets(used: set<Path>, ops: seq<FsOp>)
    decreases |ops|
  {
    ops == [] ||
    match Target(ops[0])
    case None => FreshTargets(used, ops[1..])
    case Some(p) => p !in used && FreshTargets(used + {p}, ops[1..])
  }

  // What the buffer knows about each path while targets stay fresh.
  ghost predicate Tracks(w: Window, root: Path, used: set<Path>) {
    && Consistent(w.buffer)
    && w.start <= used
    && (forall p :: p in w.world ==> p in used)
    && (forall p :: Key(root, p) in w.buffer.pending ==> p in used)
    && (forall p :: p in w.world && p in w.start ==>
      w.world[p] == Original(p) && Get(w.buffer.pending, Key(root, p)) in {None, Some(Modified)})
    && (forall p :: p in w.world && p !in w.start ==>
      match w.world[p]
      case Fresh => Get(w.buffer.pending, Key(root, p)) == Some(Created)
      case Original(o) => Key(root, p) in w.buffer.renames && w.buffer.renames[Key(root, p)] == o)
    && (forall p :: p in w.start && p !in w.world ==>
      Get(w.buffer.pending, Key(root, p)) == Some(Removed) || NamedAsSource(w.buffer, root, p))
    && (forall p :: Get(w.buffer.pending, Key(root, p)) == Some(Created) ==>
      p !in w.start && p in w.world && w.world[p] == Fresh)
  }

  lemma CreateTracks(w: Window, root: Path, used: set<Path>, op: FsOp)
    requires Tracks(w, root, used) && op.Create? && Possible(w.world, op) && op.path !in used
    ensures Tracks(Observe(w, root, op), root, used + {op.path})
  {
    var w' := Observe(w, root, op);
    PendingStaysConsistent(w.buffer, Key(root, op.path), Created, op.isDirectory);
    forall p | p in w.start && p !in w'.world
      ensures Get(w'.buffer.pending, Key(root, p)) == Some(Removed) || NamedAsSource(w'.buffer, root, p)
    {
      assert w'.buffer.renames == w.buffer.renames;
    }
  }

  lemma RemoveTracks(w: Window, root: Path, used: set<Path>, op: FsOp)
    requires Tracks(w, root, used) && op.Remove? && Possible(w.world, op)
    ensures Tracks(Observe(w, root, op), root, used)
  {
    var w' := Observe(w, root, op);
    PendingStaysConsistent(w.buffer, Key(root, op.path), Removed, op.isDirectory);
    forall p | p in w.start && p !in w'.world
      ensures Get(w'.buffer.pending, Key(root, p)) == Some(Removed) || NamedAsSource(w'.buffer, root, p)
    {
      assert w'.buffer.renames == w.buffer.renames;
    }
  }

  lemma ModifyTracks(w: Window, root: Path, used: set<Path>, op: FsOp)
    requires Tracks(w, root, used) && op.Modify? && Possible(w.world, op)
    ensures Tracks(Observe(w, root, op), root, used)
  {
    var w' := Observe(w, root, op);
    PendingStaysConsistent(w.buffer, Key(root, op.path), Modified, op.isDirectory);
    forall p | p in w.start && p !in w'.world
      ensures Get(w'.buffer.pending, Key(root, p)) == Some(Removed) || NamedAsSource(w'.buffer, root, p)
    {
      assert w'.buffer.renames == w.buffer.renames;
    }
  }

  lemma MoveTracks(w: Window, root: Path, used: set<Path>, op: FsOp)
    requires Tracks(w, root, used) && op.Move? && Possible(w.world, op) && op.to !in used
    ensures Tracks(Observe(w, root, op), root, used + {op.to})
  {
    MoveStaysConsistent(w.buffer, Key(root, op.path), Key(root, op.to), op.isDirectory);
    MoveKeepsSources(w, root, used, op);
  }

  lemma MoveKeepsSources(w: Window, root: Path, used: set<Path>, op: FsOp)
    requires Tracks(w, root, used) && op.Move? && Possible(w.world, op) && op.to !in used
    ensures var w' := Observe(w, root, op);
      forall p :: p in w.start && p !in w'.world ==>
        Get(w'.buffer.pending, Key(root, p)) == Some(Removed) || NamedAsSource(w'.buffer, root, p)
  {
    var w' := Observe(w, root, op);
    var to := Key(root, op.to);
    forall p | p in w.start && p !in w'.world
      ensures Get(w'.buffer.pending, Key(root, p)) == Some(Removed) || NamedAsSource(w'.buffer, root, p)
    {
      if p == op.path {
        assert w'.buffer.renames[to] == p;
      } else if NamedAsSource(w.buffer, root, p) {
        var q :| Key(root, q) in w.buffer.renames && w.buffer.renames[Key(root, q)] == p;
        assert Key(root, if q == op.path then op.to else q) in w'.buffer.renames;
      }
    }
  }

  // What has to be said of a path: a file that stayed was modified, one that is gone was removed; a path that was
  // not there is new, or the new name of a file that was; or it came and went in between.
  predicate KindFits(w: Window, p: Path, kind: ChangeKind, from: Option<Path>) {
    if p in w.start then kind == if p in w.world then Modified else Removed
    else if p !in w.world then kind == Removed || kind == Renamed
    else
      match w.world[p]
      case Fresh => kind == Created
      case Original(o) => kind == Renamed && from == Some(o)
  }

  ghost predicate KindsFit(w: Window, root: Path) {
    forall p :: Key(root, p) in w.buffer.pending ==>
      KindFits(w, p, w.buffer.pending[Key(root, p)], Get(w.buffer.renames, Key(root, p)))
  }

  lemma KindsStayFit(w: Window, root: Path, used: set<Path>, op: FsOp)
    requires Tracks(w, root, used) && KindsFit(w, root) && Possible(w.world, op)
    requires Target(op).Some? ==> Target(op).value !in used
    ensures KindsFit(Observe(w, root, op), root)
  {
    var w' := Observe(w, root, op);
    forall p | Key(root, p) in w'.buffer.pending
      ensures KindFits(w', p, w'.buffer.pending[Key(root, p)], Get(w'.buffer.renames, Key(root, p)))
    {
      if Key(root, p) in w.buffer.pending {
        assert KindFits(w, p, w.buffer.pending[Key(root, p)], Get(w.buffer.renames, Key(root, p)));
      }
    }
  }

  lemma StepTracks(w: Window, root: Path, used: set<Path>, op: FsOp)
    requires Tracks(w, root, used) && Possible(w.world, op)
    requires Target(op).Some? ==> Target(op).value !in used
    ensures Tracks(Observe(w, root, op), root, if Target(op).Some? then used + {Target(op).value} else used)
  {
    match op {
      case Create(_, _) => CreateTracks(w, root, used, op);
      case Remove(_, _) => RemoveTracks(w, root, used, op);
      case Modify(_, _) => ModifyTracks(w, root, used, op);
      case Move(_, _, _) => MoveTracks(w, root, used, op);
    }
  }

  /** The net effect of a window is preserved when no path is targeted twice or over an existing file:
      every path that appeared or disappeared is reported, every rename names where its file was when
      the window opened, every created path is new, and every other kind is what became of its path. */
  lemma {:induction false} NetEffectIsPreserved(w: Window, root: Path, used: set<Path>, ops: seq<FsOp>)
    requires Tracks(w, root, used) && KindsFit(w, root) && Plays(w, root, ops) && FreshTargets(used, ops)
    ensures Covered(After(w, root, ops), root) && Truthful(After(w, root, ops), root)
    ensures KindsFit(After(w, root, ops), root)
    decreases |ops|
  {
    if ops == [] {
      assert forall p :: p in w.world && p !in w.start ==> Key(root, p) in w.buffer.pending;
    } else {
      var op := ops[0];
      StepTracks(w, root, used, op);
      KindsStayFit(w, root, used, op);
      var used' := if Target(op).Some? then used + {Target(op).value} else used;
      NetEffectIsPreserved(Observe(w, root, op), root, used', ops[1..]);
    }
  }

  // What a flush says about a path: an event for it, or a rename from it.
  ghost predicate Told(events: seq<FsEvent>, root: Path, p: Path) {
    Mentions(events, Key(root, p))
    || exists q :: exists i :: 0 <= i < |events| && Reports(events[i], Key(root, q)) && events[i].from == Some(p)
  }

  lemma CoveredIsTold(w: Window, root: Path, sequence: nat, p: Path)
    requires Consistent(w.buffer) && Covered(w, root) && Changed(w, p)
    ensures Told(EventsOf(w.buffer, w.buffer.pending.Keys, sequence), root, p)
  {
    var events := EventsOf(w.buffer, w.buffer.pending.Keys, sequence);
    FlushIsExact(w.buffer, sequence);
    if !Mentions(events, Key(root, p)) {
      var q :| Key(root, q) in w.buffer.renames && w.buffer.renames[Key(root, q)] == p;
      SourceIsTold(w.buffer, Key(root, q), sequence);
    }
  }

  lemma SourceIsTold(b: Buffer, key: Key, sequence: nat)
    requires Consistent(b) && key in b.renames
    ensures var events := EventsOf(b, b.pending.Keys, sequence);
      exists i :: 0 <= i < |events| && Reports(events[i], key) && events[i].from == Some(b.renames[key])
  {
    var events := EventsOf(b, b.pending.Keys, sequence);
    FlushIsExact(b, sequence);
    assert Mentions(events, key);
    var i :| 0 <= i < |events| && Reports(events[i], key);
    assert events[i].from == Some(b.renames[key]);
  }

  // An event as the net effect demands it.
  predicate RightAbout(event: FsEvent, w: Window, p: Path) {
    event.Workspace? && KindFits(w, p, event.kind, event.from)
  }

  lemma FittingIsRight(w: Window, root: Path, sequence: nat, i: nat)
    requires Consistent(w.buffer) && KindsFit(w, root)
    requires var events := EventsOf(w.buffer, w.buffer.pending.Keys, sequence);
      i < |events| && events[i].Workspace? && events[i].key.root == root
    ensures var event := EventsOf(w.buffer, w.buffer.pending.Keys, sequence)[i];
      RightAbout(event, w, event.key.rel)
  {
    FlushIsExact(w.buffer, sequence);
    var event := EventsOf(w.buffer, w.buffer.pending.Keys, sequence)[i];
    assert event.key == Key(root, event.key.rel);
  }

  lemma OpenTracks(start: set<Path>, root: Path)
    ensures Tracks(Open(start), root, start) && KindsFit(Open(start), root)
  {
  }

  /** The same for the events that the flush of a whole window sends. */
  lemma WindowReportsNetEffect(start: set<Path>, root: Path, ops: seq<FsOp>, sequence: nat)
    requires Plays(Open(start), root, ops) && FreshTargets(start, ops)
    ensures var w := After(Open(start), root, ops);
      var events := EventsOf(w.buffer, w.buffer.pending.Keys, sequence);
      && (forall p :: Changed(w, p) ==> Told(events, root, p))
      && (forall i :: 0 <= i < |events| && events[i].Workspace? && events[i].key.root == root ==>
        RightAbout(events[i], w, events[i].key.rel))
  {
    var w := After(Open(start), root, ops);
    OpenTracks(start, root);
    NetEffectIsPreserved(Open(start), root, start, ops);
    StaysConsistent(Open(start), root, ops);
    forall p | Changed(w, p) ensures Told(EventsOf(w.buffer, w.buffer.pending.Keys, sequence), root, p) {
      CoveredIsTold(w, root, sequence, p);
    }
    var events := EventsOf(w.buffer, w.buffer.pending.Keys, sequence);
    forall i | 0 <= i < |events| && events[i].Workspace? && events[i].key.root == root
      ensures RightAbout(events[i], w, events[i].key.rel)
    {
      FittingIsRight(w, root, sequence, i);
    }
  }

  lemma RecordStaysConsistent(b: Buffer, root: Path, op: FsOp)
    requires Consistent(b)
    ensures Consistent(Record(b, root, op))
  {
    match op {
      case Create(p, d) => PendingStaysConsistent(b, Key(root, p), Created, d);
      case Remove(p, d) => PendingStaysConsistent(b, Key(root, p), Removed, d);
      case Modify(p, d) => PendingStaysConsistent(b, Key(root, p), Modified, d);
      case Move(p, q, d) => RenameStaysConsistent(b, Key(root, p), Key(root, q), d);
    }
  }

  lemma {:induction false} StaysConsistent(w: Window, root: Path, ops: seq<FsOp>)
    requires Consistent(w.buffer) && Plays(w, root, ops)
    ensures Consistent(After(w, root, ops).buffer)
    decreases |ops|
  {
    if ops != [] {
      RecordStaysConsistent(w.buffer, root, ops[0]);
      StaysConsistent(Observe(w, root, ops[0]), root, ops[1..]);
    }
  }

  // ---------------------------------------------------------------- which paths are reported, in any window

  // An operation leaves a change at the path, or takes what was there to another path.
  predicate Touches(op: FsOp, p: Path) {
    if op.Move? then op.to == p else op.path == p
  }

  predicate TakesAway(op: FsOp, p: Path) {
    op.Move? && op.path == p
  }

  // Something happened at the path, and it was not moved elsewhere since.
  ghost predicate Outstanding(ops: seq<FsOp>, p: Path) {
    exists i :: 0 <= i < |ops| && Touches(ops[i], p) && forall j :: i < j < |ops| ==> !TakesAway(ops[j], p)
  }

  // The last operation there that knew what is at the path said this.
  ghost predicate Flagged(ops: seq<FsOp>, p: Path, isDirectory: bool) {
    exists i :: 0 <= i < |ops| && Touches(ops[i], p) && ops[i].isDirectory == Some(isDirectory)
                && forall j :: i < j < |ops| ==>
                     !TakesAway(ops[j], p) && (Touches(ops[j], p) ==> ops[j].isDirectory == None)
  }

  ghost predicate Undisturbed(ops: seq<FsOp>, p: Path) {
    forall j :: 0 <= j < |ops| ==> !TakesAway(ops[j], p)
  }

  ghost predicate Unflagged(ops: seq<FsOp>, p: Path) {
    forall j :: 0 <= j < |ops| ==> !TakesAway(ops[j], p) && (Touches(ops[j], p) ==> ops[j].isDirectory == None)
  }

  lemma OutstandingCons(ops: seq<FsOp>, p: Path)
    requires ops != []
    ensures Outstanding(ops, p) <==> Outstanding(ops[1..], p) || (Touches(ops[0], p) && Undisturbed(ops[1..], p))
    ensures Undisturbed(ops, p) <==> !TakesAway(ops[0], p) && Undisturbed(ops[1..], p)
  {
    var rest := ops[1..];
    assert forall i :: 0 < i < |ops| ==> ops[i] == rest[i - 1];
    assert forall i :: 0 <= i < |rest| ==> rest[i] == ops[i + 1];
    if Outstanding(ops, p) {
      var i :| 0 <= i < |ops| && Touches(ops[i], p) && forall j :: i < j < |ops| ==> !TakesAway(ops[j], p);
      if i > 0 {
        assert Touches(rest[i - 1], p);
      }
    }
    if Outstanding(rest, p) {
      var i :| 0 <= i < |rest| && Touches(rest[i], p) && forall j :: i < j < |rest| ==> !TakesAway(rest[j], p);
      assert Touches(ops[i + 1], p);
    }
  }

  lemma UnflaggedCons(ops: seq<FsOp>, p: Path)
    requires ops != []
    ensures Unflagged(ops, p) <==>
      && !TakesAway(ops[0], p) && (Touches(ops[0], p) ==> ops[0].isDirectory == None)
      && Unflagged(ops[1..], p)
  {
    assert forall i :: 0 < i < |ops| ==> ops[i] == ops[1..][i - 1];
  }

  lemma FlaggedCons(ops: seq<FsOp>, p: Path, d: bool)
    requires ops != []
    ensures Flagged(ops, p, d) <==>
      Flagged(ops[1..], p, d) || (Touches(ops[0], p) && ops[0].isDirectory == Some(d) && Unflagged(ops[1..], p))
  {
    var rest := ops[1..];
    assert forall i :: 0 < i < |ops| ==> ops[i] == rest[i - 1];
    assert forall i :: 0 <= i < |rest| ==> rest[i] == ops[i + 1];
    if Flagged(ops, p, d) {
      var i :| 0 <= i < |ops| && Touches(ops[i], p) && ops[i].isDirectory == Some(d)
               && forall j :: i < j < |ops| ==>
                    !TakesAway(ops[j], p) && (Touches(ops[j], p) ==> ops[j].isDirectory == None);
      if i > 0 {
        assert Touches(rest[i - 1], p);
      }
    }
    if Flagged(rest, p, d) {
      var i :| 0 <= i < |rest| && Touches(rest[i], p) && rest[i].isDirectory == Some(d)
               && forall j :: i < j < |rest| ==>
                    !TakesAway(rest[j], p) && (Touches(rest[j], p) ==> rest[j].isDirectory == None);
      assert Touches(ops[i + 1], p);
    }
  }

  // The worker knows whether the destination of a rename is a directory.
  predicate Known(op: FsOp) {
    op.Move? ==> op.isDirectory.Some?
  }

  lemma OneOperationReports(w: Window, root: Path, op: FsOp, p: Path)
    requires Possible(w.world, op) && Known(op)
    ensures var b, b', key := w.buffer, Observe(w, root, op).buffer, Key(root, p);
      && (key in b'.pending <==> Touches(op, p) || (key in b.pending && !TakesAway(op, p)))
      && Get(b'.directories, key) ==
         if Touches(op, p) && op.isDirectory.Some? then op.isDirectory
         else if TakesAway(op, p) then None
         else Get(b.directories, key)
  {
  }

  /** In every window, also one that uses its targets again: the paths reported are exactly those where something
      happened that was not moved elsewhere since, and the flag they are reported with is exactly the last one
      an operation there knew. */
  lemma {:induction false} ReportedExactly(w: Window, root: Path, ops: seq<FsOp>, p: Path)
    requires Plays(w, root, ops) && forall i :: 0 <= i < |ops| ==> Known(ops[i])
    ensures var b, b', key := w.buffer, After(w, root, ops).buffer, Key(root, p);
      && (key in b'.pending <==> Outstanding(ops, p) || (key in b.pending && Undisturbed(ops, p)))
      && forall d :: Get(b'.directories, key) == Some(d) <==>
           Flagged(ops, p, d) || (Get(b.directories, key) == Some(d) && Unflagged(ops, p))
    decreases |ops|
  {
    if ops != [] {
      OneOperationReports(w, root, ops[0], p);
      OutstandingCons(ops, p);
      UnflaggedCons(ops, p);
      FlaggedCons(ops, p, true);
      FlaggedCons(ops, p, false);
      ReportedExactly(Observe(w, root, ops[0]), root, ops[1..], p);
    }
  }
}
