// The append-only journal of crates/event-journal/src/storage.rs: framed appends, the two-log
// checkpoint, the sequence lease and the repair of a torn tail.
module JournalStorage {
  import opened Wrappers
  import opened Bytes

  const MAX_JOURNAL_RECORD_BYTES: nat := 1024 * 1024
  const MAX_U64: nat := 0xFFFF_FFFF_FFFF_FFFF

  datatype JournalError = Io | Corrupt | InvalidInput | LockBusy | WriteRejected | CodecFailed | Unsupported

  // How an append can go wrong: the device accepts only the first bytes, or it never syncs.
  datatype AppendFault = WriteAfterBytes(limit: nat) | Sync

  datatype Recovery = Terminated | Discarded(bytes: nat)

  // Whether a line is UTF-8 and passes the caller's record validator.
  type Validator = seq<byte> -> bool

  // ---------------------------------------------------------------- specification

  // The bytes one append leaves behind.
  function Survived(frames: seq<seq<byte>>, fault: Option<AppendFault>): seq<byte> {
    var all := Concat(frames);
    match fault
    case Some(WriteAfterBytes(limit)) => all[..Min(limit, |all|)]
    case _ => all
  }

  // Everything survives a failed sync, and as many bytes as the device took survive a failed write.
  lemma SurvivedExactly(frames: seq<seq<byte>>, fault: Option<AppendFault>)
    ensures Survived(frames, fault) <= Concat(frames)
    ensures |Survived(frames, fault)| ==
            if fault.Some? && fault.value.WriteAfterBytes? && fault.value.limit < |Concat(frames)|
            then fault.value.limit
            else |Concat(frames)|
  {
  }

  function CommittedSequence(next: nat): nat {
    if next == 0 then 0 else next - 1
  }

  function Advanced(next: nat, committed: nat): Result<nat, JournalError> {
    if committed < CommittedSequence(next) then Err(InvalidInput)
    else if committed + 1 > MAX_U64 then Err(WriteRejected)
    else Ok(committed + 1)
  }

  // Start of the unterminated last line inside the inspection window, when one can be found.
  function TailStart(b: seq<byte>): Option<nat> {
    var windowStart := if |b| <= MAX_JOURNAL_RECORD_BYTES + 1 then 0 else |b| - (MAX_JOURNAL_RECORD_BYTES + 1);
    var k := LastLineStart(b[windowStart..]);
    if k > 0 then Some(windowStart + k)
    else if windowStart == 0 then Some(0)
    else None
  }

  // The log after a repair.
  function Repaired(b: seq<byte>, accepts: Validator): Result<seq<byte>, JournalError> {
    if b == [] || b[|b| - 1] == NL then Ok(b)
    else
      match TailStart(b)
      case None => Err(Corrupt)
      case Some(start) =>
        if start <= |b| && accepts(b[start..]) then Ok(b + [NL])
        else if start <= |b| then Ok(b[..start])
        else Err(Corrupt)
  }

  /** What a repair does, without its inspection window: a terminated log is left alone; an unterminated last
      line is completed when the validator accepts it and cut off when it does not; and a line so long that
      the window shows no boundary before it is reported. */
  lemma RepairExactly(b: seq<byte>, accepts: Validator)
    ensures var k := LastLineStart(b);
      Repaired(b, accepts) ==
      if k == |b| then Ok(b)
      else if |b| - k > MAX_JOURNAL_RECORD_BYTES && |b| > MAX_JOURNAL_RECORD_BYTES + 1 then Err(Corrupt)
      else if accepts(b[k..]) then Ok(b + [NL])
      else Ok(b[..k])
  {
    var k := LastLineStart(b);
    if k < |b| {
      WindowShowsLastLine(b, k);
    }
  }

  lemma WindowShowsLastLine(b: seq<byte>, k: nat)
    requires k == LastLineStart(b) && k < |b|
    ensures TailStart(b) ==
            if |b| - k > MAX_JOURNAL_RECORD_BYTES && |b| > MAX_JOURNAL_RECORD_BYTES + 1 then None else Some(k)
  {
    var windowStart := if |b| <= MAX_JOURNAL_RECORD_BYTES + 1 then 0 else |b| - (MAX_JOURNAL_RECORD_BYTES + 1);
    var window := b[windowStart..];
    assert forall i :: 0 <= i < |window| ==> window[i] == b[windowStart + i];
    if windowStart < k {
      assert window[k - windowStart - 1] == NL;
      LastLineStartAt(window, k - windowStart);
    } else {
      LastLineStartAt(window, 0);
    }
  }

  // ---------------------------------------------------------------- files

  // A log file, opened for appending or truncated in place.
  class LogFile {
    var bytes: seq<byte>

    constructor ()
      ensures bytes == []
    {
      bytes := [];
    }

    method WriteAll(chunk: seq<byte>)
      modifies this
      ensures bytes == old(bytes) + chunk
    {
      bytes := bytes + chunk;
    }

    method SetLen(length: nat)
      requires length <= |bytes|
      modifies this
      ensures bytes == old(bytes)[..length]
    {
      bytes := bytes[..length];
    }
  }

  // Writes frames one by one; a fault stops after the given number of bytes, or fails the sync.
  method AppendFrames(file: LogFile, frames: seq<seq<byte>>, fault: Option<AppendFault>)
    returns (r: Result<(), JournalError>)
    modifies file
    ensures file.bytes == old(file.bytes) + Survived(frames, fault)
    ensures r == if frames == [] || fault == None then Ok(()) else Err(Io)
  {
    if frames == [] {
      return Ok(());
    }
    ghost var before := file.bytes;
    if fault.Some? && fault.value.WriteAfterBytes? {
      var limit := fault.value.limit;
      var remaining: nat := limit;
      var i := 0;
      while i < |frames|
        invariant 0 <= i <= |frames|
        invariant remaining <= limit
        invariant limit - remaining == |Concat(frames[..i])|
        invariant file.bytes == before + Concat(frames[..i])
      {
        var writeLen := Min(remaining, |frames[i]|);
        assert Concat(frames[..i + 1]) == Concat(frames[..i]) + frames[i] by {
          assert frames[..i + 1] == frames[..i] + [frames[i]];
          ConcatSnoc(frames[..i], frames[i]);
        }
        assert Concat(frames) == Concat(frames[..i]) + (frames[i] + Concat(frames[i + 1..])) by {
          assert frames == frames[..i] + frames[i..];
          ConcatAppend(frames[..i], frames[i..]);
        }
        file.WriteAll(frames[i][..writeLen]);
        remaining := remaining - writeLen;
        if writeLen < |frames[i]| {
          assert Concat(frames)[..limit] == Concat(frames[..i]) + frames[i][..writeLen];
          assert file.bytes == before + Concat(frames)[..limit];
          return Err(Io);
        }
        i := i + 1;
      }
      assert frames[..i] == frames;
      assert |Concat(frames)| <= limit;
      return Err(Io);
    }
    var i := 0;
    while i < |frames|
      invariant 0 <= i <= |frames|
      invariant file.bytes == before + Concat(frames[..i])
    {
      file.WriteAll(frames[i]);
      assert frames[..i + 1] == frames[..i] + [frames[i]];
      ConcatSnoc(frames[..i], frames[i]);
      i := i + 1;
    }
    assert frames[..i] == frames;
    if fault == Some(Sync) {
      return Err(Io);
    }
    return Ok(());
  }

  // Completes an unterminated last frame, or discards it when it is torn.
  method RepairUnterminatedTail(file: LogFile, accepts: Validator)
    returns (r: Result<Option<Recovery>, JournalError>)
    modifies file
    ensures r.Ok? <==> Repaired(old(file.bytes), accepts).Ok?
    ensures r.Err? ==> r.error == Corrupt && file.bytes == old(file.bytes)
    ensures r.Ok? ==> file.bytes == Repaired(old(file.bytes), accepts).value
    ensures r.Ok? ==> (r.value == None <==> file.bytes == old(file.bytes))
    ensures r.Ok? && r.value == Some(Terminated) ==> file.bytes == old(file.bytes) + [NL]
    ensures r.Ok? && r.value.Some? && r.value.value.Discarded? ==>
      |file.bytes| + r.value.value.bytes == |old(file.bytes)| && r.value.value.bytes > 0
  {
    var length := |file.bytes|;
    if length == 0 {
      return Ok(None);
    }
    if file.bytes[length - 1] == NL {
      return Ok(None);
    }
    var inspectionBytes := MAX_JOURNAL_RECORD_BYTES + 1;
    var inspectionStart := if length <= inspectionBytes then 0 else length - inspectionBytes;
    var window := file.bytes[inspectionStart..];
    var afterNewline := LastLineStart(window);
    var tailStart: nat;
    if afterNewline > 0 {
      tailStart := inspectionStart + afterNewline;
    } else if inspectionStart == 0 {
      tailStart := 0;
    } else {
      return Err(Corrupt);
    }
    assert tailStart < length by {
      assert window[|window| - 1] == file.bytes[length - 1];
    }
    if accepts(file.bytes[tailStart..]) {
      file.WriteAll([NL]);
      return Ok(Some(Terminated));
    }
    var discarded := length - tailStart;
    file.SetLen(tailStart);
    return Ok(Some(Discarded(discarded)));
  }

  // ---------------------------------------------------------------- lease and store

  class JournalWriteLease {
    var nextSequence: nat

    constructor (next: nat)
      ensures nextSequence == next
    {
      nextSequence := next;
    }

    // Moves the lease forward; a regressing or overflowing sequence leaves it where it was.
    method AdvanceTo(committed: nat) returns (r: Result<(), JournalError>)
      modifies this
      ensures r == Ok(()) <==> old(nextSequence) <= committed + 1 && committed < MAX_U64
      ensures nextSequence == if r.Ok? then committed + 1 else old(nextSequence)
      ensures r.Err? ==> r.error == if committed + 1 < old(nextSequence) then InvalidInput else WriteRejected
      ensures r.Err? ==> Advanced(old(nextSequence), committed) == Err(r.error) && nextSequence == old(nextSequence)
      ensures r.Ok? ==> Advanced(old(nextSequence), committed) == Ok(nextSequence) && r == Ok(())
    {
      if committed < CommittedSequence(nextSequence) {
        return Err(InvalidInput);
      }
      if committed + 1 > MAX_U64 {
        return Err(WriteRejected);
      }
      nextSequence := committed + 1;
      return Ok(());
    }
  }

  // The two logs and the writer lock of one journal, as values.
  datatype Disk = Disk(records: seq<byte>, outbox: seq<byte>)

  // What a checkpoint leaves on disk and in the lease, and whether it reports success.
  datatype AppendOutcome = AppendOutcome(disk: Disk, next: nat, result: Result<(), JournalError>)

  function Checkpointed(d: Disk, next: nat, recordFrames: seq<seq<byte>>, outboxFrames: seq<seq<byte>>,
                        committed: nat, recordFault: Option<AppendFault>,
                            outboxFault: Option<AppendFault>): AppendOutcome
  {
    if recordFrames == [] then AppendOutcome(d, next, Err(InvalidInput))
    else
      var d1 := d.(outbox := d.outbox + Survived(outboxFrames, outboxFault));
      if outboxFrames != [] && outboxFault != None then AppendOutcome(d1, next, Err(Io))
      else RecordsAppended(d1, next, recordFrames, committed, recordFault)
  }

  function RecordsAppended(d: Disk, next: nat, frames: seq<seq<byte>>, committed: nat,
                           fault: Option<AppendFault>): AppendOutcome
  {
    var d1 := d.(records := d.records + Survived(frames, fault));
    if frames != [] && fault != None then AppendOutcome(d1, next, Err(Io))
    else
      match Advanced(next, committed)
      case Ok(n) => AppendOutcome(d1, n, Ok(()))
      case Err(e) => AppendOutcome(d1, next, Err(e))
  }

  class Journal {
    const records: LogFile
    const outbox: LogFile
    var locked: bool

    constructor ()
      ensures Valid() && fresh(this.records) && fresh(this.outbox)
      ensures OnDisk() == Disk([], []) && !locked
    {
      records := new LogFile();
      outbox := new LogFile();
      locked := false;
    }

    ghost predicate Valid() {
      records != outbox
    }

    ghost function OnDisk(): Disk
      reads records, outbox
    {
      Disk(records.bytes, outbox.bytes)
    }

    // Takes the writer lock, repairs both tails and reads the next sequence from the records.
    method AcquireWriteLease(acceptsRecord: Validator, acceptsOutbox: Validator,
                             nextSequence: seq<byte> -> Result<nat, JournalError>)
      returns (r: Result<JournalWriteLease, JournalError>)
      requires Valid()
      modifies this, records, outbox
      ensures old(locked) ==> r == Err(LockBusy) && OnDisk() == old(OnDisk()) && locked
      ensures !old(locked) ==>
        match (Repaired(old(records.bytes), acceptsRecord), Repaired(old(outbox.bytes), acceptsOutbox))
        case (Err(_), _) => r == Err(Corrupt) && OnDisk() == old(OnDisk())
        case (Ok(repaired), Err(_)) => r == Err(Corrupt) && OnDisk() == old(OnDisk()).(records := repaired)
        case (Ok(repaired), Ok(repairedOutbox)) =>
          && OnDisk() == Disk(repaired, repairedOutbox)
          && (match nextSequence(repaired)
              case Err(e) => r == Err(e)
              case Ok(next) => r.Ok? && fresh(r.value) && r.value.nextSequence == next)
      ensures !old(locked) ==> (locked <==> r.Ok?)
    {
      if locked {
        return Err(LockBusy);
      }
      var repair := RepairUnterminatedTail(records, acceptsRecord);
      if repair.Err? {
        return Err(repair.error);
      }
      repair := RepairUnterminatedTail(outbox, acceptsOutbox);
      if repair.Err? {
        return Err(repair.error);
      }
      var next := nextSequence(records.bytes);
      if next.Err? {
        return Err(next.error);
      }
      locked := true;
      var lease := new JournalWriteLease(next.value);
      return Ok(lease);
    }

    method AppendRecords(frames: seq<seq<byte>>, lease: JournalWriteLease, committed: nat, fault: Option<AppendFault>)
      returns (r: Result<(), JournalError>)
      requires Valid()
      modifies records, lease
      ensures AppendOutcome(OnDisk(), lease.nextSequence, r) ==
        RecordsAppended(old(OnDisk()), old(lease.nextSequence), frames, committed, fault)
      ensures r == Ok(()) <==>
        (frames == [] || fault == None) && old(lease.nextSequence) <= committed + 1 && committed < MAX_U64
      ensures lease.nextSequence == if r.Ok? then committed + 1 else old(lease.nextSequence)
      ensures r.Ok? ==> records.bytes == old(records.bytes) + Concat(frames)
      ensures frames != [] && fault.Some? ==> r == Err(Io)
    {
      r := AppendFrames(records, frames, fault);
      if r.Err? {
        return;
      }
      r := lease.AdvanceTo(committed);
    }

    // The outbox is made durable before the first record byte is written.
    method AppendCheckpoint(recordFrames: seq<seq<byte>>, outboxFrames: seq<seq<byte>>, lease: JournalWriteLease,
                            committed: nat, recordFault: Option<AppendFault>, outboxFault: Option<AppendFault>)
      returns (r: Result<(), JournalError>)
      requires Valid()
      modifies records, outbox, lease
      ensures AppendOutcome(OnDisk(), lease.nextSequence, r) ==
        Checkpointed(old(OnDisk()), old(lease.nextSequence), recordFrames, outboxFrames, committed,
                     recordFault, outboxFault)
      ensures recordFrames == [] ==> r == Err(InvalidInput) && OnDisk() == old(OnDisk())
      ensures r == Ok(()) <==>
        && recordFrames != [] && recordFault == None && (outboxFrames == [] || outboxFault == None)
        && old(lease.nextSequence) <= committed + 1 && committed < MAX_U64
      ensures lease.nextSequence == if r.Ok? then committed + 1 else old(lease.nextSequence)
      ensures r.Ok? ==>
        && records.bytes == old(records.bytes) + Concat(recordFrames)
        && outbox.bytes == old(outbox.bytes) + Concat(outboxFrames)
      ensures recordFrames != [] && outboxFrames != [] && outboxFault.Some? ==>
        r == Err(Io) && records.bytes == old(records.bytes)
      ensures recordFrames != [] && recordFault.Some? ==> r == Err(Io)
    {
      if recordFrames == [] {
        return Err(InvalidInput);
      }
      if outboxFrames != [] {
        r := AppendFrames(outbox, outboxFrames, outboxFault);
        if r.Err? {
          return;
        }
      }
      r := AppendFrames(records, recordFrames, recordFault);
      if r.Err? {
        return;
      }
      r := lease.AdvanceTo(committed);
    }
  }
}
