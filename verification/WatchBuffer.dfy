// The debounce buffer of crates/change-tracker/src/watch.rs, as values: what each recorded change
// does to the pending maps, and what a flush turns them into.
module WatchBuffer {
  import opened Wrappers

  // Paths stand for their position in the path order; a key is a path below a watched root.
  type Path = int

  datatype Key = Key(root: Path, rel: Path)

  datatype ChangeKind = Created | Modified | Removed | Renamed

  datatype Buffer = Buffer(pending: map<Key, ChangeKind>, directories: map<Key, bool>, renames: map<Key, Path>)

  const EMPTY_BUFFER := Buffer(map[], map[], map[])

  function Or<T>(a: Option<T>, b: Option<T>): Option<T> {
    if a.Some? then a else b
  }

  // Rename sources are kept for exactly the renamed paths, and directory flags for pending paths only.
  ghost predicate Consistent(b: Buffer) {
    && (forall k :: k in b.renames <==> k in b.pending && b.pending[k] == Renamed)
    && (forall k :: k in b.directories ==> k in b.pending)
  }

  // ---------------------------------------------------------------- recording changes

  function Merged(before: Option<ChangeKind>, incoming: ChangeKind): ChangeKind {
    match (before, incoming)
    case (Some(Created), Modified) => Created
    case (Some(Renamed), _) => Renamed
    case (Some(Removed), Created) => Created
    case _ => incoming
  }

  // What a row of reports about one path comes to.
  function MergedInARow(reports: seq<ChangeKind>): Option<ChangeKind> {
    if reports == [] then None
    else Some(Merged(MergedInARow(reports[..|reports| - 1]), reports[|reports| - 1]))
  }

  /** A path keeps a rename; otherwise its last report that is not a modification decides, and modifications behind it
      are part of a creation, but undo a removal. */
  lemma {:induction false} MergedIs(reports: seq<ChangeKind>, last: nat)
    requires last <= |reports| && (last > 0 ==> reports[last - 1] != Modified)
    requires forall i :: last <= i < |reports| ==> reports[i] == Modified
    ensures Renamed in reports ==> MergedInARow(reports) == Some(Renamed)
    ensures Renamed !in reports && reports != [] ==>
      MergedInARow(reports) == Some(if last > 0 && (last == |reports| || reports[last - 1] == Created)
                                    then reports[last - 1] else Modified)
    decreases |reports|
  {
    if reports != [] {
      var n := |reports| - 1;
      assert reports == reports[..n] + [reports[n]];
      if last == |reports| {
        var before := LastUnmodified(reports[..n]);
        MergedIs(reports[..n], before);
      } else {
        MergedIs(reports[..n], last);
      }
    }
  }

  function LastUnmodified(reports: seq<ChangeKind>): (last: nat)
    ensures last <= |reports| && (last > 0 ==> reports[last - 1] != Modified)
    ensures forall i :: last <= i < |reports| ==> reports[i] == Modified
  {
    if reports == [] || reports[|reports| - 1] != Modified then |reports|
    else LastUnmodified(reports[..|reports| - 1])
  }

  function RecordPending(b: Buffer, key: Key, kind: ChangeKind, isDirectory: Option<bool>): Buffer {
    Buffer(b.pending[key := Merged(Get(b.pending, key), kind)],
           if isDirectory.Some? then b.directories[key := isDirectory.value] else b.directories,
           b.renames)
  }

  // The path a renamed file had when the window opened, as far as the buffer knows.
  function SourceOf(b: Buffer, from: Key): Path {
    if Get(b.pending, from) == Some(Renamed) && from in b.renames then b.renames[from] else from.rel
  }

  function RecordMove(b: Buffer, from: Key, to: Key, isDirectory: Option<bool>): Buffer {
    var sourceKind := Get(b.pending, from);
    var directory := Or(isDirectory, Or(Get(b.directories - {from}, to), Get(b.directories, from)));
    var renames := if sourceKind == Some(Renamed) then b.renames - {from, to} else b.renames - {to};
    Buffer((b.pending - {from})[to := if sourceKind == Some(Created) then Created else Renamed],
           (b.directories - {from, to})[to := if directory.Some? then directory.value else false],
           if sourceKind == Some(Created) then renames else renames[to := SourceOf(b, from)])
  }

  function RecordRenamed(b: Buffer, from: Key, to: Key, isDirectory: Option<bool>): Buffer {
    if from.root != to.root then
      RecordPending(RecordPending(b, from, Removed, isDirectory), to, Created, isDirectory)
    else RecordMove(b, from, to, isDirectory)
  }

  /** After a move the destination is a directory if the move says so, or else if it was known to be one there, or else
      at its source; and nothing is known of the source any more. */
  lemma MoveTakesFlag(b: Buffer, from: Key, to: Key, isDirectory: Option<bool>)
    requires from != to
    ensures var directories := RecordMove(b, from, to, isDirectory).directories;
      && Get(directories, from) == None
      && Get(directories, to) == Some(if isDirectory != None then isDirectory == Some(true)
                                      else if to in b.directories then b.directories[to]
                                      else from in b.directories && b.directories[from])
      && forall k :: k != from && k != to ==> Get(directories, k) == Get(b.directories, k)
  {
  }

  lemma PendingStaysConsistent(b: Buffer, key: Key, kind: ChangeKind, isDirectory: Option<bool>)
    requires Consistent(b) && kind != Renamed
    ensures Consistent(RecordPending(b, key, kind, isDirectory))
  {
  }

  lemma MoveStaysConsistent(b: Buffer, from: Key, to: Key, isDirectory: Option<bool>)
    requires Consistent(b)
    ensures Consistent(RecordMove(b, from, to, isDirectory))
  {
  }

  lemma RenameStaysConsistent(b: Buffer, from: Key, to: Key, isDirectory: Option<bool>)
    requires Consistent(b)
    ensures Consistent(RecordRenamed(b, from, to, isDirectory))
  {
    if from.root == to.root {
      MoveStaysConsistent(b, from, to, isDirectory);
    } else {
      PendingStaysConsistent(b, from, Removed, isDirectory);
      PendingStaysConsistent(RecordPending(b, from, Removed, isDirectory), to, Created, isDirectory);
    }
  }

  // ---------------------------------------------------------------- flushing

  datatype FsEvent =
    | Workspace(sequence: nat, key: Key, isDirectory: bool, from: Option<Path>, kind: ChangeKind)
    | Git(sequence: nat, root: Path, meta: int)
    | WatchGap(lost: nat)

  predicate Before(a: Key, b: Key) {
    a.root < b.root || (a.root == b.root && a.rel < b.rel)
  }

  predicate IsLeast(keys: set<Key>, least: Key) {
    least in keys && forall k :: k in keys ==> k == least || Before(least, k)
  }

  lemma {:induction false} LeastExists(keys: set<Key>)
    requires keys != {}
    ensures exists least :: IsLeast(keys, least)
    decreases |keys|
  {
    var k :| k in keys;
    if keys == {k} {
      assert IsLeast(keys, k);
    } else {
      LeastExists(keys - {k});
      var rest :| IsLeast(keys - {k}, rest);
      var least := if Before(k, rest) then k else rest;
      forall o | o in keys ensures o == least || Before(least, o) {
        assert o == k || o in keys - {k};
      }
      assert IsLeast(keys, least);
    }
  }

  // The first key in path order.
  function Least(keys: set<Key>): (least: Key)
    requires keys != {}
    ensures IsLeast(keys, least)
  {
    LeastExists(keys);
    var least :| least in keys && IsLeast(keys, least);
    least
  }

  function EventOf(b: Buffer, key: Key, sequence: nat): FsEvent
    requires key in b.pending
  {
    var directory := Get(b.directories, key);
    Workspace(sequence, key, if directory.Some? then directory.value else false,
              if b.pending[key] == Renamed then Get(b.renames, key) else None,
              b.pending[key])
  }

  // One event for each of the given pending keys, in key order, numbered from the sequence on.
  function EventsOf(b: Buffer, keys: set<Key>, sequence: nat): (events: seq<FsEvent>)
    requires keys <= b.pending.Keys
    ensures |events| == |keys|
    decreases |keys|
  {
    if keys == {} then []
    else
      var least := Least(keys);
      [EventOf(b, least, sequence + 1)] + EventsOf(b, keys - {least}, sequence + 1)
  }

  predicate Sorted(events: seq<FsEvent>) {
    forall i, j :: 0 <= i < j < |events| ==>
      events[i].Workspace? && events[j].Workspace? && Before(events[i].key, events[j].key)
  }

  // The events carry the buffered facts of their keys, numbered without a gap.
  predicate Faithful(events: seq<FsEvent>, b: Buffer, sequence: nat) {
    forall i :: 0 <= i < |events| ==>
      events[i].Workspace? && events[i].key in b.pending && events[i] == EventOf(b, events[i].key, sequence + 1 + i)
  }

  predicate Reports(event: FsEvent, key: Key) {
    event.Workspace? && event.key == key
  }

  ghost predicate Mentions(events: seq<FsEvent>, key: Key) {
    exists i :: 0 <= i < |events| && Reports(events[i], key)
  }

  lemma MentionsCons(event: FsEvent, rest: seq<FsEvent>, key: Key)
    ensures Mentions([event] + rest, key) <==> Reports(event, key) || Mentions(rest, key)
  {
    var events := [event] + rest;
    if Reports(event, key) {
      assert Reports(events[0], key);
    }
    if Mentions(rest, key) {
      var i :| 0 <= i < |rest| && Reports(rest[i], key);
      assert Reports(events[i + 1], key);
    }
    if Mentions(events, key) && !Reports(event, key) {
      var i :| 0 <= i < |events| && Reports(events[i], key);
      assert Reports(rest[i - 1], key);
    }
  }

  lemma {:induction false} EventsMentionKeys(b: Buffer, keys: set<Key>, sequence: nat, key: Key)
    requires keys <= b.pending.Keys
    ensures Mentions(EventsOf(b, keys, sequence), key) <==> key in keys
    decreases |keys|
  {
    if keys != {} {
      var least := Least(keys);
      EventsMentionKeys(b, keys - {least}, sequence + 1, key);
      MentionsCons(EventOf(b, least, sequence + 1), EventsOf(b, keys - {least}, sequence + 1), key);
    }
  }

  lemma {:induction false} EventsAreFaithful(b: Buffer, keys: set<Key>, sequence: nat)
    requires keys <= b.pending.Keys
    ensures Faithful(EventsOf(b, keys, sequence), b, sequence)
    decreases |keys|
  {
    if keys != {} {
      EventsAreFaithful(b, keys - {Least(keys)}, sequence + 1);
    }
  }

  lemma {:induction false} EventsAreSorted(b: Buffer, keys: set<Key>, sequence: nat)
    requires keys <= b.pending.Keys
    ensures Sorted(EventsOf(b, keys, sequence))
    decreases |keys|
  {
    if keys != {} {
      var least := Least(keys);
      var rest := EventsOf(b, keys - {least}, sequence + 1);
      EventsAreSorted(b, keys - {least}, sequence + 1);
      EventsAreFaithful(b, keys - {least}, sequence + 1);
      forall i | 0 <= i < |rest| ensures Before(least, rest[i].key) {
        assert Reports(rest[i], rest[i].key);
        EventsMentionKeys(b, keys - {least}, sequence + 1, rest[i].key);
      }
    }
  }

  /** A flush sends exactly one event per pending path, in path order and numbered without a gap, names a source
      exactly for renames, and calls a path a directory exactly when it is known to be one. */
  lemma FlushIsExact(b: Buffer, sequence: nat)
    requires Consistent(b)
    ensures var events := EventsOf(b, b.pending.Keys, sequence);
      && |events| == |b.pending|
      && Sorted(events)
      && (forall k :: Mentions(events, k) <==> k in b.pending)
      && (forall i :: 0 <= i < |events| ==>
        var e := events[i];
        && e.Workspace? && e.sequence == sequence + 1 + i
        && e.key in b.pending && e.kind == b.pending[e.key]
        && e.from == (if e.kind == Renamed then Get(b.renames, e.key) else None)
        && (e.isDirectory <==> e.key in b.directories && b.directories[e.key])
        && (e.from.Some? <==> e.kind == Renamed))
  {
    EventsAreSorted(b, b.pending.Keys, sequence);
    EventsAreFaithful(b, b.pending.Keys, sequence);
    forall k ensures Mentions(EventsOf(b, b.pending.Keys, sequence), k) <==> k in b.pending {
      EventsMentionKeys(b, b.pending.Keys, sequence, k);
    }
    assert |b.pending.Keys| == |b.pending|;
  }

  // ---------------------------------------------------------------- rename chains

  // A file moved along a path of names.
  function Chain(b: Buffer, root: Path, names: seq<Path>, isDirectory: Option<bool>): Buffer
    requires |names| > 0
    decreases |names|
  {
    if |names| == 1 then b
    else Chain(RecordMove(b, Key(root, names[0]), Key(root, names[1]), isDirectory), root, names[1..], isDirectory)
  }

  function Keys(root: Path, names: seq<Path>): set<Key> {
    set i | 0 <= i < |names| :: Key(root, names[i])
  }

  lemma KeysCons(root: Path, names: seq<Path>)
    requires |names| >= 1
    ensures Keys(root, names) == {Key(root, names[0])} + Keys(root, names[1..])
  {
    forall k ensures k in Keys(root, names) <==> k in {Key(root, names[0])} + Keys(root, names[1..]) {
      if k in Keys(root, names) {
        var i :| 0 <= i < |names| && k == Key(root, names[i]);
        assert i > 0 ==> k == Key(root, names[1..][i - 1]);
      }
      if k in Keys(root, names[1..]) {
        var i :| 0 <= i < |names| - 1 && k == Key(root, names[1..][i]);
        assert k == Key(root, names[i + 1]);
      }
    }
  }

  // Two maps that differ at most on some keys agree once those are removed.
  lemma SameOutside<V>(m: map<Key, V>, m1: map<Key, V>, first: Key, keys: set<Key>)
    requires forall k :: k !in keys ==> (k in m1 <==> k in m && k != first)
    requires forall k :: k !in keys && k in m1 ==> m1[k] == m[k]
    ensures m1 - keys == m - ({first} + keys)
  {
  }

  lemma MoveOutside(b: Buffer, first: Key, second: Key, isDirectory: Option<bool>, keys: set<Key>)
    requires Consistent(b) && second in keys && first.root == second.root
    ensures var b1 := RecordMove(b, first, second, isDirectory);
      && b1.pending - keys == b.pending - ({first} + keys)
      && b1.renames - keys == b.renames - ({first} + keys)
      && Get(b1.pending, second) == Some(if Get(b.pending, first) == Some(Created) then Created else Renamed)
      && (Get(b.pending, first) != Some(Created) ==> SourceOf(b1, second) == SourceOf(b, first))
  {
    var b1 := RecordMove(b, first, second, isDirectory);
    SameOutside(b.pending, b1.pending, first, keys);
    SameOutside(b.renames, b1.renames, first, keys);
  }

  // The pending changes and sources after a chain, given what its first name stood for.
  predicate Collapsed(b: Buffer, chained: Buffer, last: Key, keys: set<Key>, isNew: bool, source: Path) {
    && chained.pending == (b.pending - keys)[last := if isNew then Created else Renamed]
    && chained.renames == (if isNew then b.renames - keys else (b.renames - keys)[last := source])
  }

  /** A chain of renames of any length collapses to one change at its last name: a creation when the
      file was new, and otherwise a rename from the name it had when the window opened. */
  lemma {:induction false} ChainCollapses(b: Buffer, root: Path, names: seq<Path>, isDirectory: Option<bool>)
    requires Consistent(b) && |names| >= 2
    ensures var first, last := Key(root, names[0]), Key(root, names[|names| - 1]);
      var chained := Chain(b, root, names, isDirectory);
      && Consistent(chained)
      && Collapsed(b, chained, last, Keys(root, names), Get(b.pending, first) == Some(Created), SourceOf(b, first))
    decreases |names|
  {
    var first, second := Key(root, names[0]), Key(root, names[1]);
    var b1 := RecordMove(b, first, second, isDirectory);
    MoveStaysConsistent(b, first, second, isDirectory);
    KeysCons(root, names);
    var rest := names[1..];
    assert second == Key(root, rest[0]);
    assert second in Keys(root, rest);
    MoveOutside(b, first, second, isDirectory, Keys(root, rest));
    if |names| == 2 {
      assert Chain(b1, root, rest, isDirectory) == b1;
      KeysCons(root, rest);
      assert Keys(root, rest[1..]) == {};
      assert Keys(root, rest) == {second};
      assert b1.pending == (b1.pending - {second})[second := b1.pending[second]];
      assert b1.renames == if second in b1.renames then (b1.renames - {second})[second := b1.renames[second]]
          else b1.renames - {second};
    } else {
      ChainCollapses(b1, root, rest, isDirectory);
      assert rest[|rest| - 1] == names[|names| - 1];
    }
  }

  /** A chain alone in its window is flushed as the single rename of its first name to its last. */
  lemma ChainFlushesAsOneRename(root: Path, names: seq<Path>, isDirectory: Option<bool>, sequence: nat)
    requires |names| >= 2
    ensures var b := Chain(EMPTY_BUFFER, root, names, isDirectory);
      && |EventsOf(b, b.pending.Keys, sequence)| == 1
      && var event := EventsOf(b, b.pending.Keys, sequence)[0];
         && event.Workspace? && event.kind == Renamed && event.sequence == sequence + 1
         && event.key == Key(root, names[|names| - 1]) && event.from == Some(names[0])
  {
    ChainCollapses(EMPTY_BUFFER, root, names, isDirectory);
    var b := Chain(EMPTY_BUFFER, root, names, isDirectory);
    var last := Key(root, names[|names| - 1]);
    assert b.pending == map[last := Renamed];
    assert b.pending.Keys == {last};
    FlushIsExact(b, sequence);
  }

  // ---------------------------------------------------------------- rename fragments

  datatype Tracker = Tracker(buffer: Buffer, renameFrom: map<nat, Key>, renameTo: map<nat, Key>)

  // The destination side of a rename, or a plain creation.
  function NewPath(t: Tracker, key: Key, tracker: Option<nat>, isDirectory: Option<bool>): Tracker {
    if tracker.Some? && tracker.value in t.renameFrom then
      t.(renameFrom := t.renameFrom - {tracker.value},
         buffer := RecordRenamed(t.buffer, t.renameFrom[tracker.value], key, isDirectory))
    else
      Tracker(RecordPending(t.buffer, key, Created, isDirectory), t.renameFrom,
              if tracker.Some? then t.renameTo[tracker.value := key] else t.renameTo)
  }

  // The source side of a rename, or a plain removal.
  function OldPath(t: Tracker, key: Key, tracker: Option<nat>, isDirectory: Option<bool>): Tracker {
    if tracker.Some? && tracker.value in t.renameTo then
      t.(renameTo := t.renameTo - {tracker.value},
         buffer := RecordRenamed(t.buffer, key, t.renameTo[tracker.value], isDirectory))
    else
      Tracker(RecordPending(t.buffer, key, Removed, isDirectory),
              if tracker.Some? then t.renameFrom[tracker.value := key] else t.renameFrom,
              t.renameTo)
  }

  lemma DestinationFirst(t: Tracker, from: Key, to: Key, id: nat, isDirectory: bool)
    requires id !in t.renameTo && id !in t.renameFrom && from.root == to.root && from != to
    ensures OldPath(NewPath(t, to, Some(id), Some(isDirectory)), from, Some(id), None)
      == t.(buffer := RecordRenamed(t.buffer, from, to, Some(isDirectory)))
  {
    var paired := OldPath(NewPath(t, to, Some(id), Some(isDirectory)), from, Some(id), None);
    var whole := RecordRenamed(t.buffer, from, to, Some(isDirectory));
    assert paired.renameTo == t.renameTo;
    assert paired.buffer.pending == whole.pending;
    assert paired.buffer.directories == whole.directories;
    assert paired.buffer.renames == whole.renames;
  }

  lemma SourceFirst(t: Tracker, from: Key, to: Key, id: nat, isDirectory: bool)
    requires Consistent(t.buffer) && id !in t.renameTo && id !in t.renameFrom && from.root == to.root && from != to
    ensures NewPath(OldPath(t, from, Some(id), None), to, Some(id), Some(isDirectory))
      == t.(buffer := RecordRenamed(t.buffer, from, to, Some(isDirectory)))
      <==> Get(t.buffer.pending, from) != Some(Created)
  {
    var paired := NewPath(OldPath(t, from, Some(id), None), to, Some(id), Some(isDirectory));
    var whole := RecordRenamed(t.buffer, from, to, Some(isDirectory));
    assert paired.renameFrom == t.renameFrom;
    if Get(t.buffer.pending, from) == Some(Created) {
      assert paired.buffer.pending[to] == Renamed;
      assert whole.pending[to] == Created;
    } else {
      assert paired.buffer.pending == whole.pending;
      assert paired.buffer.directories == whole.directories;
      assert paired.buffer.renames == whole.renames;
    }
  }

  /** Two adjacent fragments of one rename leave the same state as the two-path rename: always when the
      destination arrives first, and when the source arrives first exactly if the source was not new. */
  lemma FragmentsPair(t: Tracker, from: Key, to: Key, id: nat, isDirectory: bool)
    requires Consistent(t.buffer) && id !in t.renameFrom && id !in t.renameTo
    requires from.root == to.root && from != to
    ensures var whole := t.(buffer := RecordRenamed(t.buffer, from, to, Some(isDirectory)));
      && OldPath(NewPath(t, to, Some(id), Some(isDirectory)), from, Some(id), None) == whole
      && (NewPath(OldPath(t, from, Some(id), None), to, Some(id), Some(isDirectory)) == whole
          <==> Get(t.buffer.pending, from) != Some(Created))
  {
    DestinationFirst(t, from, to, id, isDirectory);
    SourceFirst(t, from, to, id, isDirectory);
  }
}
