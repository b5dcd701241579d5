// The worker of crates/change-tracker/src/watch.rs: it classifies raw events, records them in its
// pending maps, and flushes merged events at the end of each debounce window.
module WatchWorker {
  import opened Wrappers
  import opened WatchBuffer

  // ---------------------------------------------------------------- raw events

  datatype RawKind =
    | RenameBoth
    | RenameAmbiguous
    | Create(tracker: Option<nat>)
    | Remove(tracker: Option<nat>)
    | RenameFrom(tracker: Option<nat>)
    | RenameTo(tracker: Option<nat>)
    | Modify
    | Unclassified

  // Where a path lies: inside a gitdir, with the git fact it amounts to if any; below a watched root
  // and not ignored; or neither.
  datatype Place = InGit(root: Path, meta: Option<int>) | InWorkspace(key: Key) | Elsewhere

  // An entry met while walking a directory that has just been created, up to where the walk ends or a
  // shutdown stops it.
  datatype TreeEntry = Unreadable | Found(place: Place, isDirectory: bool)

  datatype RawPath = RawPath(path: Path, place: Place, isDirectory: Option<bool>, tree: seq<TreeEntry>)

  datatype RawEvent = RawEvent(kind: RawKind, paths: seq<RawPath>)

  // ---------------------------------------------------------------- specification

  datatype WorkerState = WorkerState(tracker: Tracker, lost: nat, sequence: nat, sent: seq<FsEvent>)

  function WithBuffer(s: WorkerState, b: Buffer): WorkerState {
    s.(tracker := s.tracker.(buffer := b))
  }

  function GitEmitted(s: WorkerState, root: Path, meta: Option<int>): WorkerState {
    if meta == None then s
    else s.(sequence := s.sequence + 1, sent := s.sent + [Git(s.sequence + 1, root, meta.value)])
  }

  function Recorded(s: WorkerState, key: Key, kind: ChangeKind, isDirectory: Option<bool>): WorkerState {
    WithBuffer(s, RecordPending(s.tracker.buffer, key, kind, isDirectory))
  }

  function TreeRecorded(s: WorkerState, tree: seq<TreeEntry>): WorkerState
    decreases |tree|
  {
    if tree == [] then s else TreeRecorded(EntryRecorded(s, tree[0]), tree[1..])
  }

  function EntryRecorded(s: WorkerState, entry: TreeEntry): WorkerState {
    match entry
    case Unreadable => s.(lost := s.lost + 1)
    case Found(InWorkspace(key), isDirectory) => s.(tracker := NewPath(s.tracker, key, None, Some(isDirectory)))
    case Found(_, _) => s
  }

  function PathHandled(s: WorkerState, kind: RawKind, p: RawPath): WorkerState {
    match p.place
    case InGit(root, meta) => GitEmitted(s, root, meta)
    case Elsewhere => s
    case InWorkspace(key) =>
      match kind
      case Create(tracker) =>
        var s' := s.(tracker := NewPath(s.tracker, key, tracker, p.isDirectory));
        if p.isDirectory == Some(true) then TreeRecorded(s', p.tree) else s'
      case RenameTo(tracker) => s.(tracker := NewPath(s.tracker, key, tracker, p.isDirectory))
      case Remove(tracker) => s.(tracker := OldPath(s.tracker, key, tracker, p.isDirectory))
      case RenameFrom(tracker) => s.(tracker := OldPath(s.tracker, key, tracker, p.isDirectory))
      case _ => Recorded(s, key, Modified, p.isDirectory)
  }

  function PathsHandled(s: WorkerState, kind: RawKind, paths: seq<RawPath>): WorkerState
    decreases |paths|
  {
    if paths == [] then s else PathsHandled(PathHandled(s, kind, paths[0]), kind, paths[1..])
  }

  function BothHandled(s: WorkerState, from: RawPath, to: RawPath): WorkerState {
    var isDirectory := Some(to.isDirectory == Some(true));
    var s1 := if from.place.InGit? then GitEmitted(s, from.place.root, from.place.meta) else s;
    var s2 := if to.place.InGit? then GitEmitted(s1, to.place.root, to.place.meta) else s1;
    match (from.place, to.place)
    case (InWorkspace(a), InWorkspace(b)) => WithBuffer(s2, RecordRenamed(s2.tracker.buffer, a, b, isDirectory))
    case (InWorkspace(a), _) => Recorded(s2, a, Removed, isDirectory)
    case (_, InWorkspace(b)) => Recorded(s2, b, Created, isDirectory)
    case _ => s2
  }

  function EventHandled(s: WorkerState, event: RawEvent): WorkerState {
    if event.kind == RenameBoth && |event.paths| == 2 && event.paths[0].path != event.paths[1].path then
      BothHandled(s, event.paths[0], event.paths[1])
    else if event.kind.RenameBoth? || event.kind.RenameAmbiguous? then s.(lost := s.lost + 1)
    else if event.kind.Unclassified? then s
    else if event.paths == [] || ((event.kind.RenameFrom? || event.kind.RenameTo?) && |event.paths| != 1) then
      s.(lost := s.lost + 1)
    else PathsHandled(s, event.kind, event.paths)
  }

  function Flushed(s: WorkerState): WorkerState {
    var b := s.tracker.buffer;
    WorkerState(Tracker(EMPTY_BUFFER, map[], map[]), 0, s.sequence + |b.pending.Keys|,
                (if s.lost > 0 then s.sent + [WatchGap(s.lost)] else s.sent) + EventsOf(b, b.pending.Keys, s.sequence))
  }

  predicate HasBufferedWork(s: WorkerState) {
    s.tracker.buffer.pending != map[] || s.tracker.renameFrom != map[] || s.tracker.renameTo != map[] || s.lost > 0
  }

  // Equality of two worker states, part by part.
  predicate SameState(a: WorkerState, b: WorkerState)
    ensures SameState(a, b) <==> a == b
  {
    a.tracker == b.tracker && a.lost == b.lost && a.sequence == b.sequence && a.sent == b.sent
  }

  // ---------------------------------------------------------------- the worker

  datatype Incoming = Event(event: RawEvent) | AddRoot | Shutdown | Timeout | Disconnected

  class Worker {
    const debounce: nat
    var pending: map<Key, ChangeKind>
    var pendingDirectories: map<Key, bool>
    var pendingRenames: map<Key, Path>
    var renameFrom: map<nat, Key>
    var renameTo: map<nat, Key>
    var lost: nat
    var sequence: nat
    var flushDeadline: Option<nat>
    var sent: seq<FsEvent>

    constructor (debounce: nat)
      requires debounce > 0
      ensures this.debounce == debounce && flushDeadline == None
      ensures State() == WorkerState(Tracker(EMPTY_BUFFER, map[], map[]), 0, 0, [])
    {
      this.debounce := debounce;
      pending, pendingDirectories, pendingRenames := map[], map[], map[];
      renameFrom, renameTo := map[], map[];
      lost, sequence, flushDeadline, sent := 0, 0, None, [];
    }

    function State(): WorkerState
      reads this
    {
      WorkerState(Tracker(Buffer(pending, pendingDirectories, pendingRenames), renameFrom, renameTo), lost, sequence,
                  sent)
    }

    // Merges a change into the window: a rename survives everything, a creation survives modification.
    method MergePending(key: Key, incoming: ChangeKind)
      modifies this`pending
      ensures pending == old(pending)[key := Merged(Get(old(pending), key), incoming)]
    {
      var kind := incoming;
      if key in pending {
        if pending[key] == Created && incoming == Modified {
          kind := Created;
        } else if pending[key] == Renamed {
          kind := Renamed;
        } else if pending[key] == Removed && incoming == Created {
          kind := Created;
        }
      }
      pending := pending[key := kind];
    }

    method RecordPendingChange(key: Key, kind: ChangeKind, isDirectory: Option<bool>)
      modifies this
      ensures State() == Recorded(old(State()), key, kind, isDirectory) && flushDeadline == old(flushDeadline)
    {
      MergePending(key, kind);
      if isDirectory.Some? {
        pendingDirectories := pendingDirectories[key := isDirectory.value];
      }
    }

    method RecordRename(from: Key, to: Key, isDirectory: Option<bool>)
      modifies this
      ensures State() == WithBuffer(old(State()), RecordRenamed(old(State()).tracker.buffer, from, to, isDirectory))
      ensures flushDeadline == old(flushDeadline)
    {
      if from.root != to.root {
        RecordPendingChange(from, Removed, isDirectory);
        RecordPendingChange(to, Created, isDirectory);
        return;
      }
      var sourceKind := Get(pending, from);
      pending := pending - {from};
      var sourceDirectory := Get(pendingDirectories, from);
      pendingDirectories := pendingDirectories - {from};
      var originalFrom := from.rel;
      if sourceKind == Some(Renamed) {
        if from in pendingRenames {
          originalFrom := pendingRenames[from];
        }
        pendingRenames := pendingRenames - {from};
      }
      var destinationDirectory := Get(pendingDirectories, to);
      pendingDirectories := pendingDirectories - {to};
      var directory := Or(isDirectory, Or(destinationDirectory, sourceDirectory));
      pendingRenames := pendingRenames - {to};
      pendingDirectories := pendingDirectories[to := if directory.Some? then directory.value else false];
      MapFacts(old(pendingDirectories), old(pendingRenames), from, to);
      if sourceKind == Some(Created) {
        pending := pending[to := Created];
        return;
      }
      pending := pending[to := Renamed];
      pendingRenames := pendingRenames[to := originalFrom];
    }

    // Completes the rename whose source is waiting under the same tracker; otherwise the path counts as
    // new, and waits for its source if it has a tracker.
    method HandleNewPath(key: Key, tracker: Option<nat>, isDirectory: Option<bool>)
      modifies this
      ensures State() == old(State()).(tracker := NewPath(old(State()).tracker, key, tracker, isDirectory))
      ensures flushDeadline == old(flushDeadline)
    {
      if tracker.Some? && tracker.value in renameFrom {
        var from := renameFrom[tracker.value];
        renameFrom := renameFrom - {tracker.value};
        RecordRename(from, key, isDirectory);
        return;
      }
      if tracker.Some? {
        renameTo := renameTo[tracker.value := key];
      }
      RecordPendingChange(key, Created, isDirectory);
    }

    // The other half: completes the rename whose destination is waiting, or counts as a removal.
    method HandleOldPath(key: Key, tracker: Option<nat>, isDirectory: Option<bool>)
      modifies this
      ensures State() == old(State()).(tracker := OldPath(old(State()).tracker, key, tracker, isDirectory))
      ensures flushDeadline == old(flushDeadline)
    {
      if tracker.Some? && tracker.value in renameTo {
        var to := renameTo[tracker.value];
        renameTo := renameTo - {tracker.value};
        RecordRename(key, to, isDirectory);
        return;
      }
      if tracker.Some? {
        renameFrom := renameFrom[tracker.value := key];
      }
      RecordPendingChange(key, Removed, isDirectory);
    }

    method EmitGit(root: Path, meta: int)
      modifies this`sequence, this`sent
      ensures sequence == old(sequence) + 1 && sent == old(sent) + [Git(sequence, root, meta)]
    {
      sequence := sequence + 1;
      sent := sent + [Git(sequence, root, meta)];
    }

    // Scans a subtree that was created before it could be watched.
    method RecordCreatedTree(tree: seq<TreeEntry>)
      modifies this
      ensures State() == TreeRecorded(old(State()), tree) && flushDeadline == old(flushDeadline)
    {
      var i := 0;
      while i < |tree|
        invariant 0 <= i <= |tree| && flushDeadline == old(flushDeadline)
        invariant TreeRecorded(State(), tree[i..]) == TreeRecorded(old(State()), tree)
      {
        assert tree[i..][1..] == tree[i + 1..];
        match tree[i] {
          case Unreadable => lost := lost + 1;
          case Found(place, isDirectory) =>
            if place.InWorkspace? {
              HandleNewPath(place.key, None, Some(isDirectory));
            }
        }
        i := i + 1;
      }
    }

    method HandleBoth(from: RawPath, to: RawPath)
      modifies this
      ensures State() == BothHandled(old(State()), from, to) && flushDeadline == old(flushDeadline)
    {
      var isDirectory := Some(to.isDirectory == Some(true));
      if from.place.InGit? && from.place.meta.Some? {
        EmitGit(from.place.root, from.place.meta.value);
      }
      if to.place.InGit? && to.place.meta.Some? {
        EmitGit(to.place.root, to.place.meta.value);
      }
      if from.place.InWorkspace? && to.place.InWorkspace? {
        if from.place.key.root == to.place.key.root {
          RecordRename(from.place.key, to.place.key, isDirectory);
        } else {
          RecordPendingChange(from.place.key, Removed, isDirectory);
          RecordPendingChange(to.place.key, Created, isDirectory);
        }
      } else if from.place.InWorkspace? {
        RecordPendingChange(from.place.key, Removed, isDirectory);
      } else if to.place.InWorkspace? {
        RecordPendingChange(to.place.key, Created, isDirectory);
      }
    }

    method HandlePath(kind: RawKind, p: RawPath)
      modifies this
      ensures State() == PathHandled(old(State()), kind, p) && flushDeadline == old(flushDeadline)
    {
      match p.place {
        case InGit(root, meta) =>
          if meta.Some? {
            EmitGit(root, meta.value);
          }
        case Elsewhere =>
        case InWorkspace(key) =>
          match kind {
            case Create(tracker) =>
              HandleNewPath(key, tracker, p.isDirectory);
              if p.isDirectory == Some(true) {
                RecordCreatedTree(p.tree);
              }
            case RenameTo(tracker) => HandleNewPath(key, tracker, p.isDirectory);
            case Remove(tracker) => HandleOldPath(key, tracker, p.isDirectory);
            case RenameFrom(tracker) => HandleOldPath(key, tracker, p.isDirectory);
            case _ => RecordPendingChange(key, Modified, p.isDirectory);
          }
      }
    }

    method HandleEvent(event: RawEvent)
      modifies this
      ensures State() == EventHandled(old(State()), event) && flushDeadline == old(flushDeadline)
    {
      if event.kind == RenameBoth && |event.paths| == 2 && event.paths[0].path != event.paths[1].path {
        HandleBoth(event.paths[0], event.paths[1]);
        return;
      }
      if event.kind.RenameBoth? || event.kind.RenameAmbiguous? {
        lost := lost + 1;
        return;
      }
      if event.kind.Unclassified? {
        return;
      }
      var fragment := event.kind.RenameFrom? || event.kind.RenameTo?;
      if event.paths == [] || (fragment && |event.paths| != 1) {
        lost := lost + 1;
        return;
      }
      var i := 0;
      while i < |event.paths|
        invariant 0 <= i <= |event.paths| && flushDeadline == old(flushDeadline)
        invariant PathsHandled(State(), event.kind, event.paths[i..])
          == PathsHandled(old(State()), event.kind, event.paths)
      {
        assert event.paths[i..][1..] == event.paths[i + 1..];
        HandlePath(event.kind, event.paths[i]);
        i := i + 1;
      }
    }

    // Sends one pending change and forgets what was kept beside it.
    method SendChange(key: Key, kind: ChangeKind)
      modifies this`sequence, this`sent, this`pendingDirectories, this`pendingRenames
      ensures sequence == old(sequence) + 1
      ensures var directory := Get(old(pendingDirectories), key);
        sent == old(sent) + [Workspace(sequence, key, if directory.Some? then directory.value else false,
                                       if kind == Renamed then Get(old(pendingRenames), key) else None, kind)]
      ensures pendingDirectories == old(pendingDirectories) - {key}
      ensures pendingRenames == if kind == Renamed then old(pendingRenames) - {key} else old(pendingRenames)
    {
      var isDirectory := if key in pendingDirectories then pendingDirectories[key] else false;
      pendingDirectories := pendingDirectories - {key};
      var from := None;
      if kind == Renamed {
        from := Get(pendingRenames, key);
        pendingRenames := pendingRenames - {key};
      }
      sequence := sequence + 1;
      sent := sent + [Workspace(sequence, key, isDirectory, from, kind)];
    }

    // Whether the side maps still hold what the buffer held for some keys.
    ghost predicate Holds(b: Buffer, keys: set<Key>)
      reads this
    {
      forall k :: k in keys ==>
        k in b.pending && Get(pendingDirectories, k) == Get(b.directories, k) && Get(pendingRenames, k)
            == Get(b.renames, k)
    }

    // Sends the given changes in path order.
    method SendChanges(changes: map<Key, ChangeKind>)
      modifies this`sequence, this`sent, this`pendingDirectories, this`pendingRenames
      ensures sent == old(sent) + EventsOf(Buffer(changes, old(pendingDirectories), old(pendingRenames)),
                                           changes.Keys, old(sequence))
      ensures sequence == old(sequence) + |changes.Keys|
    {
      ghost var b := Buffer(changes, pendingDirectories, pendingRenames);
      ghost var whole := sent + EventsOf(b, changes.Keys, sequence);
      var left := changes.Keys;
      while left != {}
        invariant left <= changes.Keys && Holds(b, left)
        invariant sent + EventsOf(b, left, sequence) == whole
        invariant sequence + |left| == old(sequence) + |changes.Keys|
        decreases |left|
      {
        var key := Least(left);
        EventsUnfold(b, left, sequence, sent);
        SendChange(key, changes[key]);
        left := left - {key};
      }
      assert EventsOf(b, {}, sequence) == [];
      assert sent + [] == sent;
    }

    // Takes the loss counter and reports it, if anything was lost.
    method ReportGap()
      modifies this`lost, this`sent
      ensures lost == 0
      ensures sent == if old(lost) > 0 then old(sent) + [WatchGap(old(lost))] else old(sent)
    {
      var taken := lost;
      lost := 0;
      if taken > 0 {
        sent := sent + [WatchGap(taken)];
      }
    }

    // Ends the window: reports losses, then every pending change in path order.
    method Flush()
      modifies this
      ensures SameState(State(), Flushed(old(State()))) && flushDeadline == None
    {
      flushDeadline := None;
      ReportGap();
      ghost var gapSent := sent;
      var changes := pending;
      pending := map[];
      SendChanges(changes);
      renameFrom, renameTo := map[], map[];
      pendingDirectories, pendingRenames := map[], map[];
      FlushedIs(old(State()), gapSent);
    }

    // One turn of the worker: whether it goes on, given what it received and the clock before and after.
    method Step(cancelled: bool, now: nat, received: Incoming, later: nat) returns (alive: bool)
      modifies this
      ensures (State(), flushDeadline, alive) == Stepped(old(State()), old(flushDeadline), debounce, cancelled, now,
                                                         received, later)
    {
      if cancelled {
        Flush();
        return false;
      }
      if flushDeadline.Some? && now >= flushDeadline.value {
        Flush();
      }
      match received {
        case Event(event) => HandleEvent(event);
        case AddRoot =>
        case Shutdown =>
          Flush();
          return false;
        case Timeout => Flush();
        case Disconnected => return false;
      }
      if flushDeadline == None && HasBufferedWork(State()) {
        flushDeadline := Some(later + debounce);
      }
      return true;
    }
  }

  lemma FlushedIs(s: WorkerState, gapSent: seq<FsEvent>)
    requires gapSent == if s.lost > 0 then s.sent + [WatchGap(s.lost)] else s.sent
    ensures var b := s.tracker.buffer;
      Flushed(s) == WorkerState(Tracker(Buffer(map[], map[], map[]), map[], map[]), 0, s.sequence + |b.pending.Keys|,
                                gapSent + EventsOf(b, b.pending.Keys, s.sequence))
  {
  }

  lemma EventsUnfold(b: Buffer, keys: set<Key>, sequence: nat, before: seq<FsEvent>)
    requires keys <= b.pending.Keys && keys != {}
    ensures var key := Least(keys);
      before + EventsOf(b, keys, sequence)
        == (before + [EventOf(b, key, sequence + 1)]) + EventsOf(b, keys - {key}, sequence + 1)
  {
    assert EventsOf(b, keys, sequence)
      == [EventOf(b, Least(keys), sequence + 1)] + EventsOf(b, keys - {Least(keys)}, sequence + 1);
  }

  lemma MapFacts(directories: map<Key, bool>, renames: map<Key, Path>, from: Key, to: Key)
    ensures (directories - {from}) - {to} == directories - {from, to}
    ensures (renames - {from}) - {to} == renames - {from, to}
  {
  }

  function Stepped(s: WorkerState, deadline: Option<nat>, debounce: nat, cancelled: bool, now: nat, received: Incoming,
                   later: nat): (WorkerState, Option<nat>, bool)
  {
    if cancelled then (Flushed(s), None, false)
    else
      var due := deadline.Some? && now >= deadline.value;
      var s1 := if due then Flushed(s) else s;
      var d1 := if due then None else deadline;
      if received.Shutdown? then (Flushed(s1), None, false)
      else if received.Disconnected? then (s1, d1, false)
      else
        var s2 := match received
          case Event(event) => EventHandled(s1, event)
          case Timeout => Flushed(s1)
          case _ => s1;
        var d2 := if received.Timeout? then None else d1;
        (s2, if d2 == None && HasBufferedWork(s2) then Some(later + debounce) else d2, true)
  }

  /** After every turn, whatever was counted lost or buffered before it, buffered work has a deadline, at most
      one debounce period away when it is set; a burst of later events does not postpone it, and a turn
      that finds it passed, or that waits in vain, sends everything. */
  lemma BufferedWorkIsDue(s: WorkerState, deadline: Option<nat>, debounce: nat, cancelled: bool, now: nat,
                          received: Incoming, later: nat)
    ensures var (s', deadline', alive) := Stepped(s, deadline, debounce, cancelled, now, received, later);
      && (alive <==> !cancelled && !received.Shutdown? && !received.Disconnected?)
      && (received.AddRoot? || received.Disconnected? ==>
        s' == if cancelled || (deadline.Some? && now >= deadline.value) then Flushed(s) else s)
      && (alive && HasBufferedWork(s') ==> deadline'.Some?)
      && (alive && deadline'.Some? && deadline' != deadline ==> deadline'.value == later + debounce)
      && (alive && deadline.Some? && now < deadline.value && received.Event? ==>
        deadline' == deadline && s' == EventHandled(s, received.event))
      && (deadline.Some? && now >= deadline.value && !cancelled ==>
        Flushed(s).sent <= s'.sent)
      && (cancelled || received.Shutdown? || received.Timeout? ==> !HasBufferedWork(s') && s.sent <= s'.sent)
  {
    var (s', _, _) := Stepped(s, deadline, debounce, cancelled, now, received, later);
    if deadline.Some? && now >= deadline.value && !cancelled && received.Event? {
      EventOnlyAddsToSent(Flushed(s), received.event);
    }
  }

  lemma {:induction false} PathsOnlyAddToSent(s: WorkerState, kind: RawKind, paths: seq<RawPath>)
    ensures s.sent <= PathsHandled(s, kind, paths).sent
    decreases |paths|
  {
    if paths != [] {
      PathOnlyAddsToSent(s, kind, paths[0]);
      PathsOnlyAddToSent(PathHandled(s, kind, paths[0]), kind, paths[1..]);
    }
  }

  lemma PathOnlyAddsToSent(s: WorkerState, kind: RawKind, p: RawPath)
    ensures s.sent <= PathHandled(s, kind, p).sent
  {
    if p.place.InWorkspace? && kind.Create? {
      TreeSendsNothing(s.(tracker := NewPath(s.tracker, p.place.key, kind.tracker, p.isDirectory)), p.tree);
    }
  }

  lemma {:induction false} TreeSendsNothing(s: WorkerState, tree: seq<TreeEntry>)
    ensures var s' := TreeRecorded(s, tree); s'.sent == s.sent && s'.sequence == s.sequence && s'.lost >= s.lost
    decreases |tree|
  {
    if tree != [] {
      TreeSendsNothing(EntryRecorded(s, tree[0]), tree[1..]);
    }
  }

  lemma EventOnlyAddsToSent(s: WorkerState, event: RawEvent)
    ensures s.sent <= EventHandled(s, event).sent
  {
    PathsOnlyAddToSent(s, event.kind, event.paths);
  }
}
