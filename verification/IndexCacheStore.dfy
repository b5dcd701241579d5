// Loading and saving the index cache on a disk that may fail, or on a process that
// may die, at any point of a save (crates/code-intelligence/src/cache.rs:158-312).
module IndexCacheStore {
  import opened Wrappers
  import opened Bytes
  import opened IndexCache

  // ---------------------------------------------------------------- paths

  // A directory and the last component below it.
  datatype Path = Path(dir: string, name: string)

  // The last dot after the first character, or the length when there is none.
  function LastDot(name: string, n: nat): (k: nat)
    requires n <= |name|
    ensures k < n || k == |name|
    ensures k < |name| ==> 0 < k && name[k] == '.' && forall i :: k < i < n ==> name[i] != '.'
    ensures k == |name| ==> forall i :: 0 < i < n ==> name[i] != '.'
  {
    if n <= 1 then |name|
    else if name[n - 1] == '.' then n - 1
    else LastDot(name, n - 1)
  }

  function WithExtensionTmp(name: string): string {
    if name == "" || name == ".." then name
    else name[..LastDot(name, |name|)] + ".tmp"
  }

  function TempOf(path: Path): Path {
    path.(name := WithExtensionTmp(path.name))
  }

  // A name that the temporary file would have as well.
  predicate NamedTmp(name: string) {
    name == "" || name == ".." || (|name| > 4 && name[|name| - 4..] == ".tmp")
  }

  lemma TempCollides(path: Path)
    ensures TempOf(path) == path <==> NamedTmp(path.name)
  {
    var name := path.name;
    if name != "" && name != ".." {
      var k := LastDot(name, |name|);
      var tmp := ".tmp";
      assert tmp[0] == '.' && tmp[1] != '.' && tmp[2] != '.' && tmp[3] != '.';
      if NamedTmp(name) {
        var j := |name| - 4;
        assert name[j] == tmp[0] && name[j + 1] == tmp[1] && name[j + 2] == tmp[2] && name[j + 3] == tmp[3];
        assert k == j;
        assert name == name[..j] + tmp;
      }
    }
  }

  // ---------------------------------------------------------------- one save

  type Files = map<Path, seq<byte>>

  datatype Point = Creating | Writing(written: nat) | Syncing | Renaming

  // How a save ends: it runs through, an operation fails and the temporary file
  // is removed if that works, or the process dies.
  datatype Stop = Finishes | Fails(at: Point, removed: bool) | Dies(at: Point)

  // The files when an operation does not complete.
  function Interrupted(files: Files, tmp: Path, bytes: seq<byte>, at: Point): Files {
    match at
    case Creating => files
    case Writing(n) => files[tmp := bytes[..Min(n, |bytes|)]]
    case Syncing => files[tmp := bytes]
    case Renaming => files[tmp := bytes]
  }

  function Replaced(files: Files, path: Path, bytes: seq<byte>, stop: Stop): Files {
    var tmp := TempOf(path);
    match stop
    case Finishes => (files - {tmp})[path := bytes]
    case Fails(at, removed) =>
      var left := Interrupted(files, tmp, bytes, at);
      if removed then left - {tmp} else left
    case Dies(at) => Interrupted(files, tmp, bytes, at)
  }

  // Whatever happens, the cache path holds the old bytes or all the new ones: true
  // exactly when the temporary file is another file.
  lemma SaveIsAtomic(path: Path, bytes: seq<byte>)
    requires bytes != []
    ensures (forall files, stop :: Get(Replaced(files, path, bytes, stop), path) in {Get(files, path), Some(bytes)})
            <==> !NamedTmp(path.name)
  {
    TempCollides(path);
    if NamedTmp(path.name) {
      var stop := Dies(Writing(0));
      assert Get(Replaced(map[], path, bytes, stop), path) == Some([]);
      assert Get(Replaced(map[], path, bytes, stop), path) !in {Get(map[], path), Some(bytes)};
    }
  }

  /** A save touches no other file than the cache and its temporary file. One that runs through leaves the new
      bytes and no temporary file, and so does one that fails and can still clean up leave none. */
  lemma SaveLeavesOthersAlone(files: Files, path: Path, bytes: seq<byte>, stop: Stop, other: Path)
    ensures var after := Replaced(files, path, bytes, stop);
      && (other != path && other != TempOf(path) ==> Get(after, other) == Get(files, other))
      && (stop.Finishes? ==> Get(after, path) == Some(bytes))
      && (!NamedTmp(path.name) && (stop.Finishes? || (stop.Fails? && stop.removed)) ==> TempOf(path) !in after)
      && (!stop.Finishes? && !NamedTmp(path.name) ==> Get(after, path) == Get(files, path))
  {
    TempCollides(path);
  }

  // ---------------------------------------------------------------- the cache

  function Loaded<T>(files: Files, path: Path, expected: Identity, format: Format<T>): Result<LoadOutcome<T>,
      CacheError> {
    match Get(files, path)
    case None => Ok(Miss)
    case Some(bytes) =>
      match Parse(bytes, expected, format)
      case Err(e) => Err(e)
      case Ok(entry) => Ok(Hit(entry))
  }

  // The bytes a save writes, if it gets as far as writing.
  function Printed<T>(id: Identity, e: Entry<T>, format: Format<T>): Result<seq<byte>, CacheError> {
    if e.schemaVersion != INDEX_SCHEMA_VERSION then Err(UnsupportedFormat)
    else
      match (format.printIdentity(id), format.printEntry(e))
      case (Some(identity), Some(payload)) => Ok(Image(identity, payload))
      case _ => Err(Corrupted)
  }

  class Disk {
    var files: Files

    constructor ()
      ensures files == map[]
    {
      files := map[];
    }
  }

  class Cache<T> {
    const path: Option<Path>
    const identity: Identity
    var data: Option<Entry<T>>

    constructor (path: Option<Path>, identity: Identity)
      ensures this.path == path && this.identity == identity && data == None
    {
      this.path, this.identity, data := path, identity, None;
    }

    /** Every failure leaves what was loaded before in memory; only a missing file clears it. */
    method Load(disk: Disk, format: Format<T>, readable: bool) returns (r: Result<LoadOutcome<T>, CacheError>)
      modifies this`data
      ensures r == if path.None? then Ok(Miss)
                   else if path.value in disk.files && !readable then Err(Io)
                   else Loaded(disk.files, path.value, identity, format)
      ensures data == if r.Err? then old(data) else if r.value.Miss? then None else Some(r.value.entry)
    {
      if path.None? || path.value !in disk.files {
        data := None;
        return Ok(Miss);
      }
      if !readable {
        return Err(Io);
      }
      var parsed := Parse(disk.files[path.value], identity, format);
      if parsed.Err? {
        return Err(parsed.error);
      }
      data := Some(parsed.value);
      r := Ok(Hit(parsed.value));
    }

    /** None when the process died. The files are those of the run of operations up to there; memory
        takes the new entry only on success, as it was given. */
    method Save(disk: Disk, entry: Entry<T>, format: Format<T>, stop: Stop)
      returns (r: Option<Result<(), CacheError>>)
      modifies this`data, disk
      ensures path.None? || Printed(identity, entry, format).Err? ==> disk.files == old(disk.files)
      ensures path.None? ==> r == Some(if entry.schemaVersion == INDEX_SCHEMA_VERSION then Ok(())
                                       else Err(UnsupportedFormat))
      ensures path.Some? && Printed(identity, entry, format).Err? ==>
                r == Some(Err(Printed(identity, entry, format).error))
      ensures path.Some? && Printed(identity, entry, format).Ok? ==>
                && disk.files == Replaced(old(disk.files), path.value, Printed(identity, entry, format).value, stop)
                && r == match stop { case Finishes => Some(Ok(())) case Fails(_, _) => Some(Err(Io))
                                    case Dies(_) => None }
      ensures data == if r == Some(Ok(())) then Some(entry) else old(data)
      ensures r == Some(Ok(())) <==>
                entry.schemaVersion == 1 && (path.None? || (format.printIdentity(identity).Some?
                                                           && format.printEntry(entry).Some? && stop.Finishes?))
    {
      if entry.schemaVersion != INDEX_SCHEMA_VERSION {
        return Some(Err(UnsupportedFormat));
      }
      if path.None? {
        data := Some(entry);
        return Some(Ok(()));
      }
      var identityJson, payloadJson := format.printIdentity(identity), format.printEntry(entry);
      if identityJson.None? || payloadJson.None? {
        return Some(Err(Corrupted));
      }
      var bytes := MAGIC;
      bytes := bytes + [FORMAT_VERSION];
      bytes := bytes + LittleEndian(|identityJson.value|, 4);
      bytes := bytes + identityJson.value;
      bytes := bytes + LittleEndian(|payloadJson.value|, 8);
      bytes := bytes + payloadJson.value;
      var failed, died := WriteAndRename(disk, path.value, bytes, stop);
      if died {
        return None;
      }
      if failed {
        if stop.removed {
          disk.files := disk.files - {TempOf(path.value)};
        }
        return Some(Err(Io));
      }
      data := Some(entry);
      r := Some(Ok(()));
    }
  }

  // Create the temporary file, fill it, rename it.
  method WriteAndRename(disk: Disk, path: Path, bytes: seq<byte>, stop: Stop) returns (failed: bool, died: bool)
    modifies disk
    ensures failed == stop.Fails? && died == stop.Dies?
    ensures disk.files == match stop {
      case Finishes => (old(disk.files) - {TempOf(path)})[path := bytes]
      case Fails(at, _) => Interrupted(old(disk.files), TempOf(path), bytes, at)
      case Dies(at) => Interrupted(old(disk.files), TempOf(path), bytes, at)
    }
  {
    failed, died := stop.Fails?, stop.Dies?;
    var tmp := TempOf(path);
    if !stop.Finishes? && stop.at.Creating? {
      return;
    }
    disk.files := disk.files[tmp := []];
    if !stop.Finishes? && stop.at.Writing? {
      disk.files := disk.files[tmp := bytes[..Min(stop.at.written, |bytes|)]];
      return;
    }
    disk.files := disk.files[tmp := bytes];
    if !stop.Finishes? {
      return;
    }
    disk.files := (disk.files - {tmp})[path := bytes];
  }

  // ---------------------------------------------------------------- any run of saves

  datatype SaveStep<T> = SaveStep(id: Identity, entry: Entry<T>, stop: Stop)

  function AfterSave<T>(files: Files, path: Path, step: SaveStep<T>, format: Format<T>): Files {
    match Printed(step.id, step.entry, format)
    case Err(_) => files
    case Ok(bytes) => Replaced(files, path, bytes, step.stop)
  }

  function AfterSaves<T>(files: Files, path: Path, steps: seq<SaveStep<T>>, format: Format<T>): Files {
    if steps == [] then files
    else AfterSave(AfterSaves(files, path, steps[..|steps| - 1], format), path, steps[|steps| - 1], format)
  }

  // The last save that ran through.
  function LastFinished<T>(steps: seq<SaveStep<T>>, format: Format<T>): Option<SaveStep<T>> {
    if steps == [] then None
    else
      var step := steps[|steps| - 1];
      if step.stop.Finishes? && Printed(step.id, step.entry, format).Ok? then Some(step)
      else LastFinished(steps[..|steps| - 1], format)
  }

  /** After any run of saves, by any identities, each of which may fail or die anywhere, the next load
      sees the last save that ran through and nothing else: never a torn file, never a lost one. */
  lemma {:induction false} LoadSeesTheLastFinishedSave<T(!new)>(files: Files, path: Path, steps: seq<SaveStep<T>>,
                                                                expected: Identity, format: Format<T>)
    requires Lawful(format) && !NamedTmp(path.name)
    ensures Loaded(AfterSaves(files, path, steps, format), path, expected, format) ==
            match LastFinished(steps, format)
            case None => Loaded(files, path, expected, format)
            case Some(step) =>
              if step.id == expected then Ok(Hit(Sanitized(step.entry)))
              else Err(IdentityMismatch(expected, step.id))
  {
    if steps != [] {
      var n := |steps| - 1;
      var step := steps[n];
      LoadSeesTheLastFinishedSave(files, path, steps[..n], expected, format);
      TempCollides(path);
      var before := AfterSaves(files, path, steps[..n], format);
      var after := AfterSave(before, path, step, format);
      if Printed(step.id, step.entry, format).Ok? {
        if step.stop.Finishes? {
          SavedIsReadBack(step.id, step.entry, format);
          if step.id != expected {
            OtherIdentityIsRefused(after[path], step.id, expected, format);
          }
        } else {
          assert Get(after, path) == Get(before, path);
        }
      }
    }
  }
}
