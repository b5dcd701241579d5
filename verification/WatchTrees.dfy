// What single raw events come to in the worker of crates/change-tracker/src/watch.rs: created directories
// with the trees found below them, git facts, and events that are counted as lost.
module WatchTrees {
  import opened Wrappers
  import opened Laws
  import opened WatchBuffer
  import opened WatchWorker

  // ---------------------------------------------------------------- created directories

  predicate Shows(entry: TreeEntry, key: Key) {
    entry.Found? && entry.place == InWorkspace(key)
  }

  ghost predicate InTree(tree: seq<TreeEntry>, key: Key) {
    exists i :: 0 <= i < |tree| && Shows(tree[i], key)
  }

  // The last entry for the path has this flag.
  ghost predicate LastShows(tree: seq<TreeEntry>, key: Key, isDirectory: bool) {
    exists i :: 0 <= i < |tree| && Shows(tree[i], key) && tree[i].isDirectory == isDirectory
                && forall j :: i < j < |tree| ==> !Shows(tree[j], key)
  }

  function Unreadables(tree: seq<TreeEntry>): nat {
    if tree == [] then 0 else (if tree[0].Unreadable? then 1 else 0) + Unreadables(tree[1..])
  }

  // What walking a created directory changes: each path found is created, unless it is known as renamed,
  // with the flag of its last entry; each unreadable entry is one loss; nothing else changes.
  ghost predicate TreeEffect(s: WorkerState, s': WorkerState, tree: seq<TreeEntry>) {
    var b, b' := s.tracker.buffer, s'.tracker.buffer;
    && s' == WithBuffer(s, b').(lost := s.lost + Unreadables(tree))
    && b'.renames == b.renames
    && (forall k :: InTree(tree, k) ==>
      Get(b'.pending, k) == Some(if Get(b.pending, k) == Some(Renamed) then Renamed else Created))
    && (forall k, flag :: LastShows(tree, k, flag) ==> Get(b'.directories, k) == Some(flag))
    && (forall k :: !InTree(tree, k) ==>
      Get(b'.pending, k) == Get(b.pending, k) && Get(b'.directories, k) == Get(b.directories, k))
  }

  lemma InTreeCons(tree: seq<TreeEntry>, key: Key)
    requires tree != []
    ensures InTree(tree, key) <==> Shows(tree[0], key) || InTree(tree[1..], key)
    ensures forall flag :: LastShows(tree, key, flag) <==>
      LastShows(tree[1..], key, flag)
      || (Shows(tree[0], key) && tree[0].isDirectory == flag && !InTree(tree[1..], key))
  {
    var rest := tree[1..];
    assert forall i :: 0 <= i < |rest| ==> rest[i] == tree[i + 1];
    if InTree(tree, key) {
      var i :| 0 <= i < |tree| && Shows(tree[i], key);
      assert i > 0 ==> Shows(rest[i - 1], key);
    }
    if InTree(rest, key) {
      var i :| 0 <= i < |rest| && Shows(rest[i], key);
      assert Shows(tree[i + 1], key);
    }
    forall flag
      ensures LastShows(tree, key, flag) <==>
        LastShows(rest, key, flag) || (Shows(tree[0], key) && tree[0].isDirectory == flag && !InTree(rest, key))
    {
      LastShowsCons(tree, key, flag);
    }
  }

  lemma LastShowsCons(tree: seq<TreeEntry>, key: Key, flag: bool)
    requires tree != []
    ensures LastShows(tree, key, flag) <==>
      LastShows(tree[1..], key, flag)
      || (Shows(tree[0], key) && tree[0].isDirectory == flag && !InTree(tree[1..], key))
  {
    var rest := tree[1..];
    assert forall i :: 0 < i < |tree| ==> tree[i] == rest[i - 1];
    if LastShows(tree, key, flag) {
      var i :| 0 <= i < |tree| && Shows(tree[i], key) && tree[i].isDirectory == flag
               && forall j :: i < j < |tree| ==> !Shows(tree[j], key);
      if i > 0 {
        assert Shows(rest[i - 1], key);
        assert forall j :: i - 1 < j < |rest| ==> rest[j] == tree[j + 1];
        assert LastShows(rest, key, flag);
      } else {
        assert forall j :: 0 <= j < |rest| ==> rest[j] == tree[j + 1];
      }
    }
    if LastShows(rest, key, flag) {
      var i :| 0 <= i < |rest| && Shows(rest[i], key) && rest[i].isDirectory == flag
               && forall j :: i < j < |rest| ==> !Shows(rest[j], key);
      assert Shows(tree[i + 1], key);
      assert forall j :: i + 1 < j < |tree| ==> tree[j] == rest[j - 1];
    }
    if Shows(tree[0], key) && tree[0].isDirectory == flag && !InTree(rest, key) {
      forall j | 0 < j < |tree| ensures !Shows(tree[j], key) {
        assert tree[j] == rest[j - 1];
      }
    }
  }

  lemma EntryThenRest(s: WorkerState, s': WorkerState, tree: seq<TreeEntry>)
    requires tree != [] && TreeEffect(EntryRecorded(s, tree[0]), s', tree[1..])
    ensures TreeEffect(s, s', tree)
  {
    forall k
      ensures InTree(tree, k) <==> Shows(tree[0], k) || InTree(tree[1..], k)
      ensures forall flag :: LastShows(tree, k, flag) <==>
        LastShows(tree[1..], k, flag)
        || (Shows(tree[0], k) && tree[0].isDirectory == flag && !InTree(tree[1..], k))
    {
      InTreeCons(tree, k);
    }
  }

  /** Walking a created directory records every path it finds, and nothing else. */
  lemma {:induction false} TreeIsRecorded(s: WorkerState, tree: seq<TreeEntry>)
    ensures TreeEffect(s, TreeRecorded(s, tree), tree)
    decreases |tree|
  {
    if tree != [] {
      TreeIsRecorded(EntryRecorded(s, tree[0]), tree[1..]);
      EntryThenRest(s, TreeRecorded(s, tree), tree);
    }
  }

  // ---------------------------------------------------------------- what the next flush tells of them

  // What a flush adds to what was sent: the losses, if any, and then the pending changes.
  function Block(s: WorkerState): seq<FsEvent> {
    (if s.lost > 0 then [WatchGap(s.lost)] else [])
    + EventsOf(s.tracker.buffer, s.tracker.buffer.pending.Keys, s.sequence)
  }

  lemma FlushSendsBlock(s: WorkerState)
    ensures Flushed(s).sent == s.sent + Block(s)
  {
  }

  // Some event says this of the path.
  ghost predicate Tells(events: seq<FsEvent>, key: Key, kind: ChangeKind, isDirectory: bool) {
    exists i :: 0 <= i < |events| && Reports(events[i], key) && events[i].kind == kind
                && events[i].isDirectory == isDirectory
  }

  lemma BlockTellsPending(s: WorkerState, key: Key)
    requires Consistent(s.tracker.buffer) && key in s.tracker.buffer.pending
    ensures var b := s.tracker.buffer;
      Tells(Block(s), key, b.pending[key], Get(b.directories, key) == Some(true))
  {
    var b := s.tracker.buffer;
    var events := EventsOf(b, b.pending.Keys, s.sequence);
    EventsTellPending(b, key, s.sequence);
    var i :| 0 <= i < |events| && Reports(events[i], key) && events[i].kind == b.pending[key]
             && events[i].isDirectory == (Get(b.directories, key) == Some(true));
    var gap := if s.lost > 0 then 1 else 0;
    assert Block(s)[gap + i] == events[i];
  }

  lemma EventsTellPending(b: Buffer, key: Key, sequence: nat)
    requires Consistent(b) && key in b.pending
    ensures Tells(EventsOf(b, b.pending.Keys, sequence), key, b.pending[key], Get(b.directories, key) == Some(true))
  {
    var events := EventsOf(b, b.pending.Keys, sequence);
    FlushIsExact(b, sequence);
    assert Mentions(events, key);
    var i :| 0 <= i < |events| && Reports(events[i], key);
    assert events[i].kind == b.pending[key];
  }

  // The raw event of a directory that was created with a tree already below it.
  function DirectoryCreated(path: Path, key: Key, tracker: Option<nat>, tree: seq<TreeEntry>): RawEvent {
    RawEvent(RawKind.Create(tracker), [RawPath(path, InWorkspace(key), Some(true), tree)])
  }

  lemma DirectoryIsHandled(s: WorkerState, path: Path, key: Key, tracker: Option<nat>, tree: seq<TreeEntry>)
    ensures EventHandled(s, DirectoryCreated(path, key, tracker, tree))
      == TreeRecorded(s.(tracker := NewPath(s.tracker, key, tracker, Some(true))), tree)
  {
    var event := DirectoryCreated(path, key, tracker, tree);
    assert event.paths[1..] == [];
    assert PathsHandled(s, event.kind, event.paths) == PathHandled(s, event.kind, event.paths[0]);
  }

  /** After a created directory is handled every path found below it is pending, as created if it was not pending
      before, and the next flush says so, with the path's last flag; unreadable entries are counted as lost. */
  lemma CreatedTreeIsTold(s: WorkerState, path: Path, key: Key, tracker: Option<nat>, tree: seq<TreeEntry>,
                          k: Key, isDirectory: bool)
    requires Consistent(s.tracker.buffer) && LastShows(tree, k, isDirectory)
    ensures var s' := EventHandled(s, DirectoryCreated(path, key, tracker, tree));
      && k in s'.tracker.buffer.pending
      && (k !in s.tracker.buffer.pending && k != key ==> s'.tracker.buffer.pending[k] == Created)
      && Flushed(s').sent == s.sent + Block(s')
      && Tells(Block(s'), k, s'.tracker.buffer.pending[k], isDirectory)
      && s'.lost == s.lost + Unreadables(tree)
  {
    DirectoryIsHandled(s, path, key, tracker, tree);
    var t := s.(tracker := NewPath(s.tracker, key, tracker, Some(true)));
    var s' := TreeRecorded(t, tree);
    TreeIsRecorded(t, tree);
    assert InTree(tree, k);
    NewPathIsConsistent(s.tracker, key, tracker);
    TreeStaysConsistent(t, s', tree);
    BlockTellsPending(s', k);
    FlushSendsBlock(s');
  }

  lemma NewPathIsConsistent(t: Tracker, key: Key, tracker: Option<nat>)
    requires Consistent(t.buffer)
    ensures var b := NewPath(t, key, tracker, Some(true)).buffer;
      Consistent(b) && forall k :: k !in t.buffer.pending && k != key && k in b.pending ==> b.pending[k] == Removed
  {
    PendingStaysConsistent(t.buffer, key, Created, Some(true));
    if tracker.Some? && tracker.value in t.renameFrom {
      RenameStaysConsistent(t.buffer, t.renameFrom[tracker.value], key, Some(true));
    }
  }

  lemma TreeStaysConsistent(s: WorkerState, s': WorkerState, tree: seq<TreeEntry>)
    requires Consistent(s.tracker.buffer) && TreeEffect(s, s', tree)
    ensures Consistent(s'.tracker.buffer)
  {
    var b, b' := s.tracker.buffer, s'.tracker.buffer;
    forall k
      ensures k in b'.renames <==> k in b'.pending && b'.pending[k] == Renamed
      ensures k in b'.directories ==> k in b'.pending
    {
      if !InTree(tree, k) {
        assert Get(b'.pending, k) == Get(b.pending, k) && Get(b'.directories, k) == Get(b.directories, k);
      }
    }
  }

  // ---------------------------------------------------------------- losses, git facts and fragments

  // A rename event that does not say which two paths it is about.
  predicate Ambiguous(event: RawEvent) {
    || event.kind == RenameAmbiguous
    || (event.kind == RenameBoth && (|event.paths| != 2 || event.paths[0].path == event.paths[1].path))
  }

  // An event of a known kind without the paths that its kind needs.
  predicate Incomplete(event: RawEvent) {
    match event.kind
    case Create(_) => event.paths == []
    case Remove(_) => event.paths == []
    case Modify => event.paths == []
    case RenameFrom(_) => |event.paths| != 1
    case RenameTo(_) => |event.paths| != 1
    case _ => false
  }

  function TreesOf(kind: RawKind, paths: seq<RawPath>): seq<TreeEntry> {
    if paths == [] || !kind.Create? then []
    else
      (if paths[0].place.InWorkspace? && paths[0].isDirectory == Some(true) then paths[0].tree else [])
      + TreesOf(kind, paths[1..])
  }

  lemma {:induction false} UnreadablesAppend(a: seq<TreeEntry>, b: seq<TreeEntry>)
    ensures Unreadables(a + b) == Unreadables(a) + Unreadables(b)
  {
    if a == [] {
      assert a + b == b;
    } else {
      assert (a + b)[1..] == a[1..] + b;
      UnreadablesAppend(a[1..], b);
    }
  }

  // The git facts among the paths, in order.
  function GitFacts(paths: seq<RawPath>, sequence: nat): seq<FsEvent> {
    if paths == [] then []
    else if paths[0].place.InGit? && paths[0].place.meta.Some? then
      [Git(sequence + 1, paths[0].place.root, paths[0].place.meta.value)] + GitFacts(paths[1..], sequence + 1)
    else GitFacts(paths[1..], sequence)
  }

  lemma PathLosesAndSends(s: WorkerState, kind: RawKind, p: RawPath)
    ensures var s' := PathHandled(s, kind, p);
      && s'.lost == s.lost + Unreadables(TreesOf(kind, [p]))
      && s'.sent == s.sent + GitFacts([p], s.sequence)
      && s'.sequence == s.sequence + |GitFacts([p], s.sequence)|
  {
    assert [p][1..] == [];
    assert p.tree + [] == p.tree;
    if p.place.InWorkspace? && kind.Create? && p.isDirectory == Some(true) {
      var t := s.(tracker := NewPath(s.tracker, p.place.key, kind.tracker, p.isDirectory));
      TreeIsRecorded(t, p.tree);
    }
    assert s.sent + [] == s.sent;
  }

  lemma {:induction false} PathsLoseAndSend(s: WorkerState, kind: RawKind, paths: seq<RawPath>)
    ensures var s' := PathsHandled(s, kind, paths);
      && s'.lost == s.lost + Unreadables(TreesOf(kind, paths))
      && s'.sent == s.sent + GitFacts(paths, s.sequence)
      && s'.sequence == s.sequence + |GitFacts(paths, s.sequence)|
    decreases |paths|
  {
    if paths == [] {
      assert s.sent + [] == s.sent;
    } else {
      var p, rest, s1 := paths[0], paths[1..], PathHandled(s, kind, paths[0]);
      PathLosesAndSends(s, kind, p);
      PathsLoseAndSend(s1, kind, rest);
      FirstPathApart(kind, paths, s.sequence);
      UnreadablesAppend(TreesOf(kind, [p]), TreesOf(kind, rest));
      Associative(s.sent, GitFacts([p], s.sequence), GitFacts(rest, s1.sequence));
    }
  }

  lemma FirstPathApart(kind: RawKind, paths: seq<RawPath>, sequence: nat)
    requires paths != []
    ensures TreesOf(kind, paths) == TreesOf(kind, [paths[0]]) + TreesOf(kind, paths[1..])
    ensures var first := GitFacts([paths[0]], sequence);
      GitFacts(paths, sequence) == first + GitFacts(paths[1..], sequence + |first|)
  {
    assert [paths[0]][1..] == [];
  }

  /** An event that is ambiguous or incomplete is one loss and nothing else; an unknown kind is nothing at all; and
      any other event loses exactly the unreadable entries of the trees it makes the worker walk, and sends at
      once exactly the git facts among its paths, in order and numbered on. */
  lemma EventLosesAndSends(s: WorkerState, event: RawEvent)
    ensures var s' := EventHandled(s, event);
      && (Ambiguous(event) || Incomplete(event) ==> s' == s.(lost := s.lost + 1))
      && (event.kind.Unclassified? ==> s' == s)
      && (!Ambiguous(event) && !Incomplete(event) && !event.kind.Unclassified? ==>
        && s'.lost == s.lost + Unreadables(TreesOf(event.kind, event.paths))
        && s'.sent == s.sent + GitFacts(event.paths, s.sequence)
        && s'.sequence == s.sequence + |GitFacts(event.paths, s.sequence)|)
  {
    if event.kind == RenameBoth && !Ambiguous(event) {
      BothSend(s, event.paths[0], event.paths[1]);
      assert event.paths == [event.paths[0], event.paths[1]];
    } else {
      PathsLoseAndSend(s, event.kind, event.paths);
    }
  }

  lemma OneGitFact(s: WorkerState, p: RawPath)
    ensures var s', facts :=
        if p.place.InGit? then GitEmitted(s, p.place.root, p.place.meta) else s, GitFacts([p], s.sequence);
      s'.sent == s.sent + facts && s'.sequence == s.sequence + |facts|
  {
    assert [p][1..] == [];
    assert s.sent + [] == s.sent;
  }

  lemma BothSend(s: WorkerState, from: RawPath, to: RawPath)
    ensures var s', facts := BothHandled(s, from, to), GitFacts([from, to], s.sequence);
      s'.lost == s.lost && s'.sent == s.sent + facts && s'.sequence == s.sequence + |facts|
  {
    var s1 := if from.place.InGit? then GitEmitted(s, from.place.root, from.place.meta) else s;
    var first, second := GitFacts([from], s.sequence), GitFacts([to], s1.sequence);
    assert [from, to][1..] == [to];
    OneGitFact(s, from);
    OneGitFact(s1, to);
    assert GitFacts([from, to], s.sequence) == first + second;
  }

  /** A creation and a removal with a tracker are recorded like the two fragments of a rename, so that a backend may
      report a rename either way. */
  lemma TrackedLikeFragments(s: WorkerState, p: RawPath, tracker: Option<nat>)
    ensures PathHandled(s, RawKind.Remove(tracker), p) == PathHandled(s, RawKind.RenameFrom(tracker), p)
    ensures p.isDirectory != Some(true) || p.tree == [] ==>
      PathHandled(s, RawKind.Create(tracker), p) == PathHandled(s, RawKind.RenameTo(tracker), p)
  {
    assert forall t :: TreeRecorded(t, []) == t;
  }
}
