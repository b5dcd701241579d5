// The watcher as a system: the backend's notifier thread, the bounded queue and the worker, in every
// interleaving (crates/change-tracker/src/watch.rs).
module WatchStream {
  import opened Wrappers
  import opened WatchBuffer
  import opened WatchWorker

  // Counters of what has happened so far are kept beside the worker and the queue.
  datatype System = System(
    worker: WorkerState, queue: seq<RawEvent>, capacity: nat,
    refused: nat,               // results the notifier could not queue and has not counted yet
    results: nat,               // raw results delivered by the backend
    accepted: seq<RawEvent>,    // results queued, in the order in which they were delivered
    handled: nat,               // results taken from the queue
    notCounted: nat,            // losses counted by the notifier
    normalized: nat             // losses counted by the worker
  )

  datatype Action =
    | Deliver(event: RawEvent)   // the backend reports an event; it is queued if there is room
    | Fail                       // the backend reports an error
    | CountLoss                  // the notifier adds one refused result to the counter
    | Handle                     // the worker takes one event from the queue
    | FlushNow                   // the worker ends its window

  predicate Enabled(s: System, a: Action) {
    match a
    case CountLoss => s.refused > 0
    case Handle => s.queue != []
    case _ => true
  }

  function Next(s: System, a: Action): System
    requires Enabled(s, a)
  {
    match a
    case Deliver(event) =>
      if |s.queue| < s.capacity then
        s.(queue := s.queue + [event], results := s.results + 1, accepted := s.accepted + [event])
      else s.(refused := s.refused + 1, results := s.results + 1)
    case Fail => s.(refused := s.refused + 1, results := s.results + 1)
    case CountLoss =>
      s.(refused := s.refused - 1, notCounted := s.notCounted + 1, worker := s.worker.(lost := s.worker.lost + 1))
    case Handle =>
      var w := EventHandled(s.worker, s.queue[0]);
      s.(worker := w, queue := s.queue[1..], handled := s.handled + 1,
         normalized := s.normalized + (if w.lost >= s.worker.lost then w.lost - s.worker.lost else 0))
    case FlushNow => s.(worker := Flushed(s.worker))
  }

  ghost predicate Schedule(s: System, actions: seq<Action>)
    decreases |actions|
  {
    actions == [] || (Enabled(s, actions[0]) && Schedule(Next(s, actions[0]), actions[1..]))
  }

  ghost function Run(s: System, actions: seq<Action>): System
    requires Schedule(s, actions)
    decreases |actions|
  {
    if actions == [] then s else Run(Next(s, actions[0]), actions[1..])
  }

  function Started(capacity: nat): System {
    System(WorkerState(Tracker(EMPTY_BUFFER, map[], map[]), 0, 0, []), [], capacity, 0, 0, [], 0, 0, 0)
  }

  // ---------------------------------------------------------------- what is sent

  function Gaps(sent: seq<FsEvent>): nat {
    if sent == [] then 0
    else
      var last := sent[|sent| - 1];
      Gaps(sent[..|sent| - 1]) + (if last.WatchGap? then last.lost else 0)
  }

  function Sequences(sent: seq<FsEvent>): seq<nat> {
    if sent == [] then []
    else
      var last := sent[|sent| - 1];
      Sequences(sent[..|sent| - 1]) + (if last.WatchGap? then [] else [last.sequence])
  }

  lemma GapsSnoc(sent: seq<FsEvent>, event: FsEvent)
    ensures Gaps(sent + [event]) == Gaps(sent) + (if event.WatchGap? then event.lost else 0)
    ensures Sequences(sent + [event]) == Sequences(sent) + (if event.WatchGap? then [] else [event.sequence])
  {
    assert (sent + [event])[..|sent|] == sent;
  }

  // The numbers sent so far are 1, 2, 3, ... up to the worker's sequence.
  predicate CountsUp(w: WorkerState) {
    |Sequences(w.sent)| == w.sequence && forall i :: 0 <= i < w.sequence ==> Sequences(w.sent)[i] == i + 1
  }

  // Sending one more numbered event.
  lemma SendsNext(w: WorkerState, event: FsEvent)
    requires CountsUp(w) && !event.WatchGap? && event.sequence == w.sequence + 1
    ensures CountsUp(w.(sent := w.sent + [event], sequence := w.sequence + 1))
    ensures Gaps(w.sent + [event]) == Gaps(w.sent)
  {
    GapsSnoc(w.sent, event);
  }

  lemma {:induction false} EventsCountUp(w: WorkerState, b: Buffer, keys: set<Key>)
    requires CountsUp(w) && keys <= b.pending.Keys
    ensures CountsUp(w.(sent := w.sent + EventsOf(b, keys, w.sequence), sequence := w.sequence + |keys|))
    ensures Gaps(w.sent + EventsOf(b, keys, w.sequence)) == Gaps(w.sent)
    decreases |keys|
  {
    if keys == {} {
      assert w.sent + [] == w.sent;
    } else {
      var key := Least(keys);
      var event := EventOf(b, key, w.sequence + 1);
      SendsNext(w, event);
      EventsCountUp(w.(sent := w.sent + [event], sequence := w.sequence + 1), b, keys - {key});
      EventsUnfold(b, keys, w.sequence, w.sent);
    }
  }

  lemma FlushCountsUp(w: WorkerState)
    requires CountsUp(w)
    ensures CountsUp(Flushed(w))
    ensures Gaps(Flushed(w).sent) == Gaps(w.sent) + w.lost
  {
    var b := w.tracker.buffer;
    var w1 := if w.lost > 0 then w.(sent := w.sent + [WatchGap(w.lost)]) else w;
    if w.lost > 0 {
      GapsSnoc(w.sent, WatchGap(w.lost));
    }
    EventsCountUp(w1, b, b.pending.Keys);
  }

  // What handling an event keeps: numbering, gaps sent, and a loss counter that only grows.
  ghost predicate Keeps(w: WorkerState, w': WorkerState) {
    && (CountsUp(w) ==> CountsUp(w'))
    && Gaps(w'.sent) == Gaps(w.sent)
    && w'.lost >= w.lost
    && (Consistent(w.tracker.buffer) ==> Consistent(w'.tracker.buffer))
  }

  lemma GitKeeps(w: WorkerState, root: Path, meta: Option<int>)
    ensures Keeps(w, GitEmitted(w, root, meta))
  {
    if meta.Some? {
      var event := Git(w.sequence + 1, root, meta.value);
      GapsSnoc(w.sent, event);
      if CountsUp(w) {
        SendsNext(w, event);
      }
    }
  }

  lemma NewPathKeeps(w: WorkerState, key: Key, tracker: Option<nat>, isDirectory: Option<bool>)
    ensures Keeps(w, w.(tracker := NewPath(w.tracker, key, tracker, isDirectory)))
  {
    if Consistent(w.tracker.buffer) {
      PendingStaysConsistent(w.tracker.buffer, key, Created, isDirectory);
      if tracker.Some? && tracker.value in w.tracker.renameFrom {
        RenameStaysConsistent(w.tracker.buffer, w.tracker.renameFrom[tracker.value], key, isDirectory);
      }
    }
  }

  lemma OldPathKeeps(w: WorkerState, key: Key, tracker: Option<nat>, isDirectory: Option<bool>)
    ensures Keeps(w, w.(tracker := OldPath(w.tracker, key, tracker, isDirectory)))
  {
    if Consistent(w.tracker.buffer) {
      PendingStaysConsistent(w.tracker.buffer, key, Removed, isDirectory);
      if tracker.Some? && tracker.value in w.tracker.renameTo {
        RenameStaysConsistent(w.tracker.buffer, key, w.tracker.renameTo[tracker.value], isDirectory);
      }
    }
  }

  lemma RecordKeeps(w: WorkerState, key: Key, kind: ChangeKind, isDirectory: Option<bool>)
    requires kind != Renamed
    ensures Keeps(w, Recorded(w, key, kind, isDirectory))
  {
    if Consistent(w.tracker.buffer) {
      PendingStaysConsistent(w.tracker.buffer, key, kind, isDirectory);
    }
  }

  lemma {:induction false} TreeKeeps(w: WorkerState, tree: seq<TreeEntry>)
    ensures Keeps(w, TreeRecorded(w, tree))
    decreases |tree|
  {
    if tree != [] {
      match tree[0] {
        case Unreadable =>
        case Found(place, isDirectory) =>
          if place.InWorkspace? {
            NewPathKeeps(w, place.key, None, Some(isDirectory));
          }
      }
      TreeKeeps(EntryRecorded(w, tree[0]), tree[1..]);
    }
  }

  lemma PathKeeps(w: WorkerState, kind: RawKind, p: RawPath)
    ensures Keeps(w, PathHandled(w, kind, p))
  {
    match p.place {
      case InGit(root, meta) => GitKeeps(w, root, meta);
      case Elsewhere =>
      case InWorkspace(key) =>
        match kind {
          case Create(tracker) =>
            NewPathKeeps(w, key, tracker, p.isDirectory);
            TreeKeeps(w.(tracker := NewPath(w.tracker, key, tracker, p.isDirectory)), p.tree);
          case RenameTo(tracker) => NewPathKeeps(w, key, tracker, p.isDirectory);
          case Remove(tracker) => OldPathKeeps(w, key, tracker, p.isDirectory);
          case RenameFrom(tracker) => OldPathKeeps(w, key, tracker, p.isDirectory);
          case _ => RecordKeeps(w, key, Modified, p.isDirectory);
        }
    }
  }

  lemma {:induction false} PathsKeep(w: WorkerState, kind: RawKind, paths: seq<RawPath>)
    ensures Keeps(w, PathsHandled(w, kind, paths))
    decreases |paths|
  {
    if paths != [] {
      PathKeeps(w, kind, paths[0]);
      PathsKeep(PathHandled(w, kind, paths[0]), kind, paths[1..]);
    }
  }

  lemma BothKeeps(w: WorkerState, from: RawPath, to: RawPath)
    ensures Keeps(w, BothHandled(w, from, to))
  {
    var isDirectory := Some(to.isDirectory == Some(true));
    var w1 := if from.place.InGit? then GitEmitted(w, from.place.root, from.place.meta) else w;
    if from.place.InGit? {
      GitKeeps(w, from.place.root, from.place.meta);
    }
    var w2 := if to.place.InGit? then GitEmitted(w1, to.place.root, to.place.meta) else w1;
    if to.place.InGit? {
      GitKeeps(w1, to.place.root, to.place.meta);
    }
    if from.place.InWorkspace? {
      RecordKeeps(w2, from.place.key, Removed, isDirectory);
      if to.place.InWorkspace? && Consistent(w2.tracker.buffer) {
        RenameStaysConsistent(w2.tracker.buffer, from.place.key, to.place.key, isDirectory);
      }
    } else if to.place.InWorkspace? {
      RecordKeeps(w2, to.place.key, Created, isDirectory);
    }
  }

  lemma EventKeeps(w: WorkerState, event: RawEvent)
    ensures Keeps(w, EventHandled(w, event))
  {
    PathsKeep(w, event.kind, event.paths);
    if |event.paths| == 2 {
      BothKeeps(w, event.paths[0], event.paths[1]);
    }
  }

  // ---------------------------------------------------------------- every interleaving

  ghost predicate Accounted(s: System) {
    && s.results == |s.accepted| + s.notCounted + s.refused
    && s.handled <= |s.accepted| && s.queue == s.accepted[s.handled..]
    && |s.queue| <= s.capacity
    && Gaps(s.worker.sent) + s.worker.lost == s.notCounted + s.normalized
    && CountsUp(s.worker)
    && Consistent(s.worker.tracker.buffer)
  }

  lemma NextStaysAccounted(s: System, a: Action)
    requires Accounted(s) && Enabled(s, a)
    ensures Accounted(Next(s, a))
  {
    match a {
      case Handle => EventKeeps(s.worker, s.queue[0]);
      case FlushNow => FlushCountsUp(s.worker);
      case _ =>
    }
  }

  /** In every interleaving of the notifier and the worker each raw result is queued once or counted lost
      once, the gaps sent and the live counter add up to all losses, the events sent are numbered
      1, 2, 3, ... across flushes, and the pending maps agree; what waits in the queue is what was accepted and
      not yet handled, in order. */
  lemma {:induction false} EveryScheduleIsAccounted(s: System, actions: seq<Action>)
    requires Accounted(s) && Schedule(s, actions)
    ensures Accounted(Run(s, actions))
    decreases |actions|
  {
    if actions != [] {
      NextStaysAccounted(s, actions[0]);
      EveryScheduleIsAccounted(Next(s, actions[0]), actions[1..]);
    }
  }

  /** Results are queued while there is room and counted as refused otherwise, and the worker handles them in the
      order in which the backend delivered them: the one it takes is the first accepted one it has not taken. */
  lemma HandledInOrder(s: System, a: Action)
    requires Accounted(s) && Enabled(s, a)
    ensures var s', waiting := Next(s, a), |s.accepted| - s.handled;
      && (a.Handle? ==>
        && waiting > 0 && s'.handled == s.handled + 1 && s'.accepted == s.accepted
        && s'.worker == EventHandled(s.worker, s.accepted[s.handled]))
      && (a.Deliver? ==>
        && s'.worker == s.worker && s'.handled == s.handled
        && (if waiting < s.capacity then s'.accepted == s.accepted + [a.event] && s'.refused == s.refused
            else s'.accepted == s.accepted && s'.refused == s.refused + 1))
      && (a.Fail? ==> s'.accepted == s.accepted && s'.refused == s.refused + 1 && s'.worker == s.worker)
      && (a.CountLoss? ==> s'.worker == s.worker.(lost := s.worker.lost + 1) && s'.refused == s.refused - 1)
  {
  }

  lemma StartIsAccounted(capacity: nat)
    ensures Accounted(Started(capacity))
  {
  }
}
