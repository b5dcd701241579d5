// The watcher as a whole: what the worker itself sends for a window of file operations that the backend
// reports one by one.
module WatchEndToEnd {
  import opened Wrappers
  import opened WatchBuffer
  import opened WatchWindow
  import opened WatchWorker
  import opened WatchTrees

  // A workspace path as the worker classifies it, without a tree below it.
  function RawPathOf(root: Path, p: Path, isDirectory: Option<bool>): RawPath {
    RawPath(p, InWorkspace(Key(root, p)), isDirectory, [])
  }

  // The raw event of an operation; a rename is reported with both of its paths.
  function RawOf(root: Path, op: FsOp): RawEvent {
    match op
    case Create(p, d) => RawEvent(RawKind.Create(None), [RawPathOf(root, p, d)])
    case Remove(p, d) => RawEvent(RawKind.Remove(None), [RawPathOf(root, p, d)])
    case Modify(p, d) => RawEvent(RawKind.Modify, [RawPathOf(root, p, d)])
    case Move(p, q, d) => RawEvent(RenameBoth, [RawPathOf(root, p, d), RawPathOf(root, q, d)])
  }

  lemma EventIsRecorded(s: WorkerState, root: Path, op: FsOp)
    requires Known(op) && (op.Move? ==> op.path != op.to)
    ensures EventHandled(s, RawOf(root, op)) == WithBuffer(s, Record(s.tracker.buffer, root, op))
  {
    match op {
      case Move(_, _, _) =>
        var flag := op.isDirectory.value;
        assert op.isDirectory == Some(flag);
      case _ =>
        var event := RawOf(root, op);
        assert event.paths[1..] == [];
        assert PathsHandled(s, event.kind, event.paths) == PathHandled(s, event.kind, event.paths[0]);
    }
  }

  // How a backend reports a rename: with both of its paths, or as two fragments under one tracker.
  datatype Delivery = Whole | DestinationFirst(tracker: nat) | SourceFirst(tracker: nat)

  // The fragment of a rename that appears, and the one that disappears, which cannot be looked at any more.
  function Arrival(root: Path, op: FsOp, tracker: nat): RawEvent
    requires op.Move?
  {
    RawEvent(RawKind.RenameTo(Some(tracker)), [RawPathOf(root, op.to, op.isDirectory)])
  }

  function Departure(root: Path, op: FsOp, tracker: nat): RawEvent
    requires op.Move?
  {
    RawEvent(RawKind.RenameFrom(Some(tracker)), [RawPathOf(root, op.path, None)])
  }

  function Delivered(s: WorkerState, root: Path, op: FsOp, how: Delivery): WorkerState {
    if !op.Move? then EventHandled(s, RawOf(root, op))
    else
      match how
      case Whole => EventHandled(s, RawOf(root, op))
      case DestinationFirst(tracker) =>
        EventHandled(EventHandled(s, Arrival(root, op, tracker)), Departure(root, op, tracker))
      case SourceFirst(tracker) =>
        EventHandled(EventHandled(s, Departure(root, op, tracker)), Arrival(root, op, tracker))
  }

  lemma FragmentIsHandled(s: WorkerState, root: Path, op: FsOp, tracker: nat)
    requires op.Move?
    ensures EventHandled(s, Arrival(root, op, tracker))
            == s.(tracker := NewPath(s.tracker, Key(root, op.to), Some(tracker), op.isDirectory))
    ensures EventHandled(s, Departure(root, op, tracker))
            == s.(tracker := OldPath(s.tracker, Key(root, op.path), Some(tracker), None))
  {
    var arrival, departure := Arrival(root, op, tracker), Departure(root, op, tracker);
    assert arrival.paths[1..] == [] && departure.paths[1..] == [];
    assert PathsHandled(s, arrival.kind, arrival.paths) == PathHandled(s, arrival.kind, arrival.paths[0]);
    assert PathsHandled(s, departure.kind, departure.paths) == PathHandled(s, departure.kind, departure.paths[0]);
  }

  // No fragment is waiting, and a source that arrives first was not created in this window.
  ghost predicate CanPair(s: WorkerState, root: Path, op: FsOp, how: Delivery) {
    && s.tracker.renameFrom == map[] && s.tracker.renameTo == map[]
    && (op.Move? && how.SourceFirst? ==> Get(s.tracker.buffer.pending, Key(root, op.path)) != Some(Created))
  }

  // However it is delivered, an operation is recorded alike.
  lemma DeliveryIsRecorded(s: WorkerState, root: Path, op: FsOp, how: Delivery)
    requires Known(op) && (op.Move? ==> op.path != op.to)
    requires Consistent(s.tracker.buffer) && CanPair(s, root, op, how)
    ensures Delivered(s, root, op, how) == WithBuffer(s, Record(s.tracker.buffer, root, op))
  {
    EventIsRecorded(s, root, op);
    if op.Move? && !how.Whole? {
      var from, to, id := Key(root, op.path), Key(root, op.to), how.tracker;
      FragmentsPair(s.tracker, from, to, id, op.isDirectory.value);
      FragmentIsHandled(s, root, op, id);
      FragmentIsHandled(EventHandled(s, Arrival(root, op, id)), root, op, id);
      FragmentIsHandled(EventHandled(s, Departure(root, op, id)), root, op, id);
    }
  }

  // ---------------------------------------------------------------- whole windows

  // What the backend reports: one operation; a directory created with what was found below it; or, once more,
  // a path that is known as created already.
  datatype Report =
    | One(op: FsOp, how: Delivery)
    | WithTree(dir: Path, tree: seq<TreeEntry>)
    | Again(path: Path, isDirectory: Option<bool>)

  // The creations that a tree stands for.
  function FoundOps(tree: seq<TreeEntry>): seq<FsOp> {
    if tree == [] then []
    else
      (match tree[0]
       case Found(InWorkspace(key), isDirectory) => [FsOp.Create(key.rel, Some(isDirectory))]
       case _ => [])
      + FoundOps(tree[1..])
  }

  // The operations that a report stands for.
  function OpsOf(report: Report): seq<FsOp> {
    match report
    case One(op, _) => [op]
    case WithTree(dir, tree) => [FsOp.Create(dir, Some(true))] + FoundOps(tree)
    case Again(_, _) => []
  }

  function AllOps(reports: seq<Report>): seq<FsOp> {
    if reports == [] then [] else OpsOf(reports[0]) + AllOps(reports[1..])
  }

  // Entries that could not be read.
  function LostIn(reports: seq<Report>): nat {
    if reports == [] then 0
    else (if reports[0].WithTree? then Unreadables(reports[0].tree) else 0) + LostIn(reports[1..])
  }

  function Reported(s: WorkerState, root: Path, report: Report): WorkerState {
    match report
    case One(op, how) => Delivered(s, root, op, how)
    case WithTree(dir, tree) => EventHandled(s, DirectoryCreated(dir, Key(root, dir), None, tree))
    case Again(path, isDirectory) => EventHandled(s, RawOf(root, FsOp.Create(path, isDirectory)))
  }

  function AllReported(s: WorkerState, root: Path, reports: seq<Report>): WorkerState
    decreases |reports|
  {
    if reports == [] then s else AllReported(Reported(s, root, reports[0]), root, reports[1..])
  }

  // Renames come whole or in fragments that can pair, trees lie below the root, and what is reported again is
  // reported as it was.
  ghost predicate CanReport(s: WorkerState, root: Path, report: Report) {
    match report
    case One(op, how) => Known(op) && CanPair(s, root, op, how)
    case WithTree(_, tree) =>
      forall i :: 0 <= i < |tree| && tree[i].Found? && tree[i].place.InWorkspace? ==> tree[i].place.key.root == root
    case Again(path, isDirectory) =>
      var b, key := s.tracker.buffer, Key(root, path);
      && Get(b.pending, key) == Some(Created)
      && (isDirectory.Some? ==> isDirectory == Get(b.directories, key))
  }

  ghost predicate AllCanReport(s: WorkerState, root: Path, reports: seq<Report>)
    decreases |reports|
  {
    reports == []
    || (CanReport(s, root, reports[0]) && AllCanReport(Reported(s, root, reports[0]), root, reports[1..]))
  }

  lemma {:induction false} PlaysAppend(w: Window, root: Path, a: seq<FsOp>, b: seq<FsOp>)
    requires Plays(w, root, a + b)
    ensures Plays(w, root, a) && Plays(After(w, root, a), root, b)
    ensures After(w, root, a + b) == After(After(w, root, a), root, b)
    decreases |a|
  {
    if a == [] {
      assert a + b == b;
    } else {
      assert (a + b)[1..] == a[1..] + b && (a + b)[0] == a[0];
      PlaysAppend(Observe(w, root, a[0]), root, a[1..], b);
    }
  }

  // The state with the buffer of a window and some more losses.
  ghost function Caught(s: WorkerState, w: Window, losses: nat): WorkerState {
    WithBuffer(s, w.buffer).(lost := s.lost + losses)
  }

  lemma {:induction false} TreeIsPlayed(s: WorkerState, w: Window, root: Path, tree: seq<TreeEntry>)
    requires s.tracker.buffer == w.buffer && Plays(w, root, FoundOps(tree))
    requires forall i :: 0 <= i < |tree| && tree[i].Found? && tree[i].place.InWorkspace? ==>
      tree[i].place.key.root == root
    ensures TreeRecorded(s, tree) == Caught(s, After(w, root, FoundOps(tree)), Unreadables(tree))
    decreases |tree|
  {
    if tree != [] {
      var rest := FoundOps(tree[1..]);
      match tree[0] {
        case Found(InWorkspace(key), isDirectory) =>
          var op := FsOp.Create(key.rel, Some(isDirectory));
          assert ([op] + rest)[1..] == rest;
          TreeIsPlayed(EntryRecorded(s, tree[0]), Observe(w, root, op), root, tree[1..]);
        case _ =>
          assert [] + rest == rest;
          TreeIsPlayed(EntryRecorded(s, tree[0]), w, root, tree[1..]);
      }
    }
  }

  lemma ReportIsRecorded(s: WorkerState, w: Window, root: Path, report: Report)
    requires Consistent(w.buffer) && s.tracker.buffer == w.buffer
    requires CanReport(s, root, report) && Plays(w, root, OpsOf(report))
    ensures Reported(s, root, report) == Caught(s, After(w, root, OpsOf(report)), LostIn([report]))
  {
    assert [report][1..] == [];
    match report {
      case One(op, how) =>
        DeliveryIsRecorded(s, root, op, how);
        assert [op][1..] == [];
        assert After(w, root, [op]) == Observe(w, root, op);
      case WithTree(dir, tree) =>
        var op := FsOp.Create(dir, Some(true));
        DirectoryIsHandled(s, dir, Key(root, dir), None, tree);
        assert ([op] + FoundOps(tree))[1..] == FoundOps(tree);
        TreeIsPlayed(WithBuffer(s, Observe(w, root, op).buffer), Observe(w, root, op), root, tree);
      case Again(path, isDirectory) =>
        EventIsRecorded(s, root, FsOp.Create(path, isDirectory));
        var b, key := w.buffer, Key(root, path);
        assert RecordPending(b, key, Created, isDirectory).pending == b.pending;
        assert RecordPending(b, key, Created, isDirectory).directories == b.directories;
    }
  }

  lemma {:induction false} WindowIsRecorded(s: WorkerState, w: Window, root: Path, reports: seq<Report>)
    requires AllCanReport(s, root, reports)
    requires Consistent(w.buffer) && s.tracker.buffer == w.buffer && Plays(w, root, AllOps(reports))
    ensures AllReported(s, root, reports) == Caught(s, After(w, root, AllOps(reports)), LostIn(reports))
    ensures forall i :: 0 <= i < |AllOps(reports)| ==> Known(AllOps(reports)[i])
    decreases |reports|
  {
    if reports != [] {
      var ops, rest := OpsOf(reports[0]), AllOps(reports[1..]);
      PlaysAppend(w, root, ops, rest);
      ReportIsRecorded(s, w, root, reports[0]);
      OpsAreKnown(s, root, reports[0]);
      StaysConsistent(w, root, ops);
      assert [reports[0]][1..] == [];
      WindowIsRecorded(Reported(s, root, reports[0]), After(w, root, ops), root, reports[1..]);
    }
  }

  lemma OpsAreKnown(s: WorkerState, root: Path, report: Report)
    requires CanReport(s, root, report)
    ensures forall i :: 0 <= i < |OpsOf(report)| ==> Known(OpsOf(report)[i])
  {
    if report.WithTree? {
      FoundAreCreated(report.tree);
    }
  }

  lemma {:induction false} FoundAreCreated(tree: seq<TreeEntry>)
    ensures forall i :: 0 <= i < |FoundOps(tree)| ==> FoundOps(tree)[i].Create?
  {
    if tree != [] {
      FoundAreCreated(tree[1..]);
    }
  }

  // Events that tell what a window below a root came to: its net effect, and each path where something happened
  // with what was last known of it.
  ghost predicate TellsWindow(events: seq<FsEvent>, w: Window, root: Path, ops: seq<FsOp>) {
    && (forall p :: Changed(w, p) ==> Told(events, root, p))
    && (forall p :: Mentions(events, Key(root, p)) <==> Outstanding(ops, p))
    && (forall i :: 0 <= i < |events| && events[i].Workspace? && events[i].key.root == root ==>
      && RightAbout(events[i], w, events[i].key.rel)
      && (events[i].isDirectory <==> Flagged(ops, events[i].key.rel, true)))
  }

  lemma WindowTells(start: set<Path>, root: Path, ops: seq<FsOp>, sequence: nat)
    requires Plays(Open(start), root, ops) && FreshTargets(start, ops)
    requires forall i :: 0 <= i < |ops| ==> Known(ops[i])
    ensures var w := After(Open(start), root, ops);
      TellsWindow(EventsOf(w.buffer, w.buffer.pending.Keys, sequence), w, root, ops)
  {
    var w := After(Open(start), root, ops);
    WindowReportsNetEffect(start, root, ops, sequence);
    StaysConsistent(Open(start), root, ops);
    FlushIsExact(w.buffer, sequence);
    forall p
      ensures Key(root, p) in w.buffer.pending <==> Outstanding(ops, p)
      ensures Get(w.buffer.directories, Key(root, p)) == Some(true) <==> Flagged(ops, p, true)
    {
      ReportedExactly(Open(start), root, ops, p);
    }
    TellsItsFlags(w, root, ops, sequence);
  }

  lemma TellsItsFlags(w: Window, root: Path, ops: seq<FsOp>, sequence: nat)
    requires Consistent(w.buffer)
    requires forall p :: Get(w.buffer.directories, Key(root, p)) == Some(true) <==> Flagged(ops, p, true)
    ensures var events := EventsOf(w.buffer, w.buffer.pending.Keys, sequence);
      forall i :: 0 <= i < |events| && events[i].Workspace? && events[i].key.root == root ==>
        (events[i].isDirectory <==> Flagged(ops, events[i].key.rel, true))
  {
    var events := EventsOf(w.buffer, w.buffer.pending.Keys, sequence);
    FlushIsExact(w.buffer, sequence);
    forall i | 0 <= i < |events| && events[i].Workspace? && events[i].key.root == root
      ensures events[i].isDirectory <==> Flagged(ops, events[i].key.rel, true)
    {
      assert events[i].key == Key(root, events[i].key.rel);
      assert events[i].isDirectory <==> Get(w.buffer.directories, events[i].key) == Some(true);
    }
  }

  // A gap in front tells nothing about any path.
  lemma GapTellsNothing(events: seq<FsEvent>, lost: nat, w: Window, root: Path, ops: seq<FsOp>)
    requires TellsWindow(events, w, root, ops)
    ensures TellsWindow([WatchGap(lost)] + events, w, root, ops)
  {
    var all := [WatchGap(lost)] + events;
    assert forall i :: 0 <= i < |events| ==> events[i] == all[i + 1];
    assert forall i :: 0 < i < |all| ==> all[i] == events[i - 1];
    forall p
      ensures Mentions(all, Key(root, p)) <==> Mentions(events, Key(root, p))
      ensures Told(events, root, p) ==> Told(all, root, p)
    {
      MentionsCons(WatchGap(lost), events, Key(root, p));
      if Told(events, root, p) && !Mentions(events, Key(root, p)) {
        var q, i :| 0 <= i < |events| && Reports(events[i], Key(root, q)) && events[i].from == Some(p);
        assert Reports(all[i + 1], Key(root, q)) && all[i + 1].from == Some(p);
      }
    }
  }

  /** A worker that starts a window with nothing buffered, takes the raw events of any operations with fresh
      targets, each rename whole or in fragments, directories with the trees below them, and creations more than
      once, and then flushes, sends one block of events: a gap that counts the entries it could not read, if
      any, and then exactly the paths where something happened, each as the net effect of the window demands. */
  lemma WorkerReportsNetEffect(s: WorkerState, start: set<Path>, root: Path, reports: seq<Report>)
    requires !HasBufferedWork(s) && s.tracker.buffer == EMPTY_BUFFER
    requires Plays(Open(start), root, AllOps(reports)) && FreshTargets(start, AllOps(reports))
    requires AllCanReport(s, root, reports)
    ensures var s', w := AllReported(s, root, reports), After(Open(start), root, AllOps(reports));
      && s'.sent == s.sent && s'.lost == LostIn(reports)
      && Flushed(s').sent == s.sent + Block(s')
      && TellsWindow(Block(s'), w, root, AllOps(reports))
  {
    var s', w := AllReported(s, root, reports), After(Open(start), root, AllOps(reports));
    WindowIsRecorded(s, Open(start), root, reports);
    WindowTells(start, root, AllOps(reports), s.sequence);
    FlushSendsBlock(s');
    var events := EventsOf(w.buffer, w.buffer.pending.Keys, s.sequence);
    if s'.lost > 0 {
      GapTellsNothing(events, s'.lost, w, root, AllOps(reports));
    } else {
      assert [] + events == events;
    }
  }

  // ---------------------------------------------------------------- renames across a border

  // A path as the two-path handler sees it: with the destination's directory flag, and no tree to walk.
  function WithFlag(p: RawPath, to: RawPath): RawPath {
    p.(isDirectory := Some(to.isDirectory == Some(true)), tree := [])
  }

  predicate SameRoot(from: RawPath, to: RawPath) {
    from.place.InWorkspace? && to.place.InWorkspace? && from.place.key.root == to.place.key.root
  }

  /** A rename that stays below one root is a move in the buffer; any other, whatever border it crosses and
      whichever gitdir it touches, is what a removal of its source and then a creation of its destination
      would be. */
  lemma RenameAcrossIsRemoveAndCreate(s: WorkerState, from: RawPath, to: RawPath)
    requires from.path != to.path
    ensures var event := RawEvent(RenameBoth, [from, to]);
      EventHandled(s, event)
      == if SameRoot(from, to) then
           WithBuffer(s, RecordMove(s.tracker.buffer, from.place.key, to.place.key, Some(to.isDirectory == Some(true))))
         else
           PathHandled(PathHandled(s, RawKind.Remove(None), WithFlag(from, to)), RawKind.Create(None), WithFlag(to, to))
  {
    assert TreeRecorded(s, []) == s;
  }
}
