// Whole runs of a journal: appends that may fail after any byte, crashes, and repairs.
module JournalRuns {
  import opened Wrappers
  import opened Laws
  import opened Bytes
  import opened JournalStorage
  import opened JournalLines

  // A frame the log's validator accepts, no strict prefix of which it accepts.
  predicate IsFrame(f: seq<byte>, accepts: Validator) {
    && IsLine(f)
    && accepts(Body(f))
    && forall n :: 0 < n < |f| - 1 ==> !accepts(f[..n])
  }

  predicate AllFrames(frames: seq<seq<byte>>, accepts: Validator) {
    forall i :: 0 <= i < |frames| ==> IsFrame(frames[i], accepts)
  }

  // How many frames outlive a repair when only the first n bytes of an append survived:
  // a frame counts from the moment its body is complete, with or without its newline.
  function Kept(frames: seq<seq<byte>>, n: nat): (k: nat)
    ensures k <= |frames|
  {
    if frames == [] || n + 1 < |frames[0]| then 0
    else if n < |frames[0]| then 1
    else 1 + Kept(frames[1..], n - |frames[0]|)
  }

  lemma {:induction false} KeptAll(frames: seq<seq<byte>>)
    requires AllLines(frames)
    ensures Kept(frames, |Concat(frames)|) == |frames|
    ensures Kept(frames, 0) == 0
  {
    if frames != [] {
      KeptAll(frames[1..]);
    }
  }

  // ---------------------------------------------------------------- one repair

  /** A repair after a torn append restores a log of whole frames: the frames whose bodies survived,
      the last of them completed when it lacks only its newline. It always finds a safe boundary. */
  lemma {:induction false} RepairAfterTornAppend(base: seq<seq<byte>>, frames: seq<seq<byte>>, n: nat,
                                                 accepts: Validator)
    requires AllLines(base) && AllFrames(frames, accepts) && n <= |Concat(frames)|
    ensures Repaired(Concat(base) + Concat(frames)[..n], accepts) == Ok(Concat(base + frames[..Kept(frames, n)]))
    decreases |frames|
  {
    if frames == [] || n == 0 {
      assert Concat(frames)[..n] == [];
      assert Concat(base) + [] == Concat(base);
      assert base + frames[..0] == base;
      ConcatAtBoundary(base);
      if frames != [] {
        assert Kept(frames, 0) == 0;
      }
    } else if n < |frames[0]| {
      assert Concat(frames)[..n] == frames[0][..n];
      ConcatAtBoundary(base);
      RepairAfterTornFrame(Concat(base), frames[0], n, accepts);
      if n + 1 == |frames[0]| {
        ConcatSnoc(base, frames[0]);
        assert frames[..1] == [frames[0]];
      } else {
        assert base + frames[..0] == base;
      }
    } else {
      var f, rest := frames[0], frames[1..];
      RepairAfterTornAppend(base + [f], rest, n - |f|, accepts);
      ShiftFirst(base, frames, n);
    }
  }

  // The first frame of an append counted with the frames before it.
  lemma ShiftFirst(base: seq<seq<byte>>, frames: seq<seq<byte>>, n: nat)
    requires frames != [] && |frames[0]| <= n <= |Concat(frames)| && AllLines(frames)
    ensures var f, rest := frames[0], frames[1..];
      && Concat(base) + Concat(frames)[..n] == Concat(base + [f]) + Concat(rest)[..n - |f|]
      && (base + [f]) + rest[..Kept(rest, n - |f|)] == base + frames[..Kept(frames, n)]
  {
    var f, rest := frames[0], frames[1..];
    var k := Kept(rest, n - |f|);
    ConcatSnoc(base, f);
    PrefixOfAppend(f, Concat(rest), n);
    Associative(Concat(base), f, Concat(rest)[..n - |f|]);
    assert Kept(frames, n) == 1 + k;
    assert frames[..1 + k] == [f] + rest[..k];
    Associative(base, [f], rest[..k]);
  }

  lemma PrefixOfAppend(a: seq<byte>, b: seq<byte>, n: nat)
    requires |a| <= n <= |a + b|
    ensures (a + b)[..n] == a + b[..n - |a|]
  {
  }

  lemma RepairAfterTornFrame(older: seq<byte>, f: seq<byte>, n: nat, accepts: Validator)
    requires AtLineBoundary(older) && IsFrame(f, accepts) && 0 < n < |f|
    ensures Repaired(older + f[..n], accepts) == Ok(if n == |f| - 1 then older + f else older)
  {
    var b := older + f[..n];
    TailStartAfter(older, f[..n]);
    assert b[|older|..] == f[..n];
    assert b[|b| - 1] == f[n - 1];
    if n == |f| - 1 {
      assert f[..n] == Body(f);
      assert b + [NL] == older + f;
    } else {
      assert b[..|older|] == older;
    }
  }

  // The window is large enough to show where an unterminated tail starts.
  lemma TailStartAfter(older: seq<byte>, tail: seq<byte>)
    requires AtLineBoundary(older) && 0 < |tail| <= MAX_JOURNAL_RECORD_BYTES
    requires forall i :: 0 <= i < |tail| ==> tail[i] != NL
    ensures TailStart(older + tail) == Some(|older|)
  {
    var b := older + tail;
    var windowStart := if |b| <= MAX_JOURNAL_RECORD_BYTES + 1 then 0 else |b| - (MAX_JOURNAL_RECORD_BYTES + 1);
    var window := b[windowStart..];
    assert windowStart <= |older|;
    assert window == older[windowStart..] + tail;
    LastLineStartAt(window, |older| - windowStart);
  }

  // ---------------------------------------------------------------- runs

  datatype Batch = Batch(records: seq<seq<byte>>, outbox: seq<seq<byte>>)

  // One submitted batch, how many bytes of it reached each log, and whether the writer was told so.
  datatype Entry = Entry(batch: Batch, recordBytes: nat, outboxBytes: nat, acknowledged: bool)

  datatype Validators = Validators(record: Validator, outbox: Validator)

  // A journal in time: its logs, the lease if one is held, and every batch submitted so far.
  datatype State = State(disk: Disk, lease: Option<nat>, history: seq<Entry>)

  datatype Op =
    | Append(frames: seq<seq<byte>>, committed: nat, fault: Option<AppendFault>)
    | Checkpoint(batch: Batch, committed: nat, recordFault: Option<AppendFault>, outboxFault: Option<AppendFault>)
    | Acquire(next: nat)
    | RepairForRead
    | CrashedRepair   // a repair that died between the records and the outbox
    | Release

  const EMPTY: State := State(Disk([], []), None, [])

  // What the code asks for: appends need a lease, which an earlier failure does not take away, and
  // only one lease is held at a time.
  predicate Enabled(s: State, op: Op, v: Validators) {
    match op
    case Append(frames, _, _) => s.lease.Some? && AllFrames(frames, v.record)
    case Checkpoint(batch, _, _, _) =>
      s.lease.Some? && AllFrames(batch.records, v.record) && AllFrames(batch.outbox, v.outbox)
    case Acquire(_) => s.lease == None
    case RepairForRead => s.lease == None
    case CrashedRepair => s.lease == None
    case Release => s.lease.Some?
  }

  function RepairBoth(s: State, v: Validators): Result<Disk, JournalError> {
    match Repaired(s.disk.records, v.record)
    case Err(e) => Err(e)
    case Ok(records) =>
      match Repaired(s.disk.outbox, v.outbox)
      case Err(e) => Err(e)
      case Ok(outbox) => Ok(Disk(records, outbox))
  }

  // A repair that got no further than the records.
  function RecordsRepaired(s: State, v: Validators): State {
    match Repaired(s.disk.records, v.record)
    case Ok(records) => s.(disk := s.disk.(records := records))
    case Err(_) => s
  }

  // The batch an operation submits; a checkpoint without records is refused.
  function SubmittedBy(op: Op): Option<Batch> {
    match op
    case Append(frames, _, _) => Some(Batch(frames, []))
    case Checkpoint(batch, _, _, _) => if batch.records == [] then None else Some(batch)
    case _ => None
  }

  function Outcome(s: State, op: Op): AppendOutcome
    requires s.lease.Some?
  {
    match op
    case Append(frames, committed, fault) => RecordsAppended(s.disk, s.lease.value, frames, committed, fault)
    case Checkpoint(batch, committed, recordFault, outboxFault) =>
      Checkpointed(s.disk, s.lease.value, batch.records, batch.outbox, committed, recordFault, outboxFault)
    case _ => AppendOutcome(s.disk, s.lease.value, Ok(()))
  }

  function Submit(s: State, batch: Batch, outcome: AppendOutcome): State
    requires |s.disk.records| <= |outcome.disk.records| && |s.disk.outbox| <= |outcome.disk.outbox|
  {
    State(outcome.disk, Some(outcome.next),
          s.history + [Entry(batch, |outcome.disk.records| - |s.disk.records|,
                             |outcome.disk.outbox| - |s.disk.outbox|, outcome.result.Ok?)])
  }

  function Step(s: State, op: Op, v: Validators): State
    requires Enabled(s, op, v)
  {
    match op
    case Acquire(next) =>
      (match RepairBoth(s, v)
       case Ok(disk) => s.(disk := disk, lease := Some(next))
       case Err(_) => RecordsRepaired(s, v))
    case RepairForRead =>
      (match RepairBoth(s, v)
       case Ok(disk) => s.(disk := disk)
       case Err(_) => RecordsRepaired(s, v))
    case CrashedRepair => RecordsRepaired(s, v)
    case Release => s.(lease := None)
    case _ => if SubmittedBy(op).None? then s else Submit(s, SubmittedBy(op).value, Outcome(s, op))
  }

  ghost predicate ValidRun(s: State, ops: seq<Op>, v: Validators)
    decreases |ops|
  {
    ops == [] || (Enabled(s, ops[0], v) && ValidRun(Step(s, ops[0], v), ops[1..], v))
  }

  ghost function Run(s: State, ops: seq<Op>, v: Validators): State
    requires ValidRun(s, ops, v)
    decreases |ops|
  {
    if ops == [] then s else Run(Step(s, ops[0], v), ops[1..], v)
  }

  // Every log an append is to write ends where a line does.
  predicate AtBoundaries(s: State, op: Op) {
    SubmittedBy(op).Some? ==>
      var batch := SubmittedBy(op).value;
      && (batch.records == [] || AtLineBoundary(s.disk.records))
      && (batch.outbox == [] || AtLineBoundary(s.disk.outbox))
  }

  // A run in which every append finds its logs like that.
  ghost predicate CarefulRun(s: State, ops: seq<Op>, v: Validators)
    decreases |ops|
  {
    ops == [] || (Enabled(s, ops[0], v) && AtBoundaries(s, ops[0]) && CarefulRun(Step(s, ops[0], v), ops[1..], v))
  }

  // ---------------------------------------------------------------- what a history leaves behind

  function KeptRecords(history: seq<Entry>): seq<seq<byte>> {
    if history == [] then []
    else
      var e := history[|history| - 1];
      KeptRecords(history[..|history| - 1]) + e.batch.records[..Kept(e.batch.records, e.recordBytes)]
  }

  function KeptOutbox(history: seq<Entry>): seq<seq<byte>> {
    if history == [] then []
    else
      var e := history[|history| - 1];
      KeptOutbox(history[..|history| - 1]) + e.batch.outbox[..Kept(e.batch.outbox, e.outboxBytes)]
  }

  // The part of a batch that reached the logs: a prefix of each, records only behind a whole outbox,
  // and everything once acknowledged.
  predicate Plausible(e: Entry, v: Validators) {
    && AllFrames(e.batch.records, v.record) && AllFrames(e.batch.outbox, v.outbox)
    && e.recordBytes <= |Concat(e.batch.records)|
    && e.outboxBytes <= |Concat(e.batch.outbox)|
    && (e.recordBytes > 0 ==> e.outboxBytes == |Concat(e.batch.outbox)|)
    && (e.acknowledged ==>
      e.recordBytes == |Concat(e.batch.records)| && e.outboxBytes == |Concat(e.batch.outbox)|)
  }

  // Both logs are what the history keeps, or would be after a repair.
  ghost predicate Invariant(s: State, v: Validators) {
    && (forall i :: 0 <= i < |s.history| ==> Plausible(s.history[i], v))
    && RepairBoth(s, v) == Ok(Disk(Concat(KeptRecords(s.history)), Concat(KeptOutbox(s.history))))
  }

  lemma {:induction false} KeptAreLines(history: seq<Entry>, v: Validators)
    requires forall i :: 0 <= i < |history| ==> Plausible(history[i], v)
    ensures AllFrames(KeptRecords(history), v.record) && AllFrames(KeptOutbox(history), v.outbox)
    ensures AllLines(KeptRecords(history)) && AllLines(KeptOutbox(history))
  {
    if history != [] {
      KeptAreLines(history[..|history| - 1], v);
    }
  }

  // The bytes an append leaves behind are a prefix of what was submitted.
  lemma SurvivedIsPrefix(frames: seq<seq<byte>>, fault: Option<AppendFault>)
    ensures Survived(frames, fault) == Concat(frames)[..|Survived(frames, fault)|]
    ensures fault == None || frames == [] ==> Survived(frames, fault) == Concat(frames)
  {
  }

  lemma KeptGrows(history: seq<Entry>, e: Entry)
    ensures KeptRecords(history + [e]) == KeptRecords(history) + e.batch.records[..Kept(e.batch.records, e.recordBytes)]
    ensures KeptOutbox(history + [e]) == KeptOutbox(history) + e.batch.outbox[..Kept(e.batch.outbox, e.outboxBytes)]
  {
    assert (history + [e])[..|history|] == history;
  }

  // One log after an append that starts at a line boundary.
  lemma AppendRepairs(log: seq<byte>, kept: seq<seq<byte>>, frames: seq<seq<byte>>, survived: seq<byte>,
                      accepts: Validator)
    requires Repaired(log, accepts) == Ok(Concat(kept)) && AllLines(kept) && AllFrames(frames, accepts)
    requires IsPart(survived, frames)
    requires frames == [] || AtLineBoundary(log)
    ensures Repaired(log + survived, accepts) == Ok(Concat(kept + frames[..Kept(frames, |survived|)]))
  {
    if frames == [] {
      assert log + survived == log;
      assert kept + frames[..0] == kept;
    } else {
      RepairAfterTornAppend(kept, frames, |survived|, accepts);
    }
  }

  // The bytes an operation adds to each log.
  function WrittenOutbox(op: Op): seq<byte> {
    if op.Checkpoint? && op.batch.records != [] then Survived(op.batch.outbox, op.outboxFault) else []
  }

  function WrittenRecords(op: Op): seq<byte> {
    match op
    case Append(frames, _, fault) => Survived(frames, fault)
    case Checkpoint(batch, _, recordFault, outboxFault) =>
      if batch.outbox != [] && outboxFault != None then [] else Survived(batch.records, recordFault)
    case _ => []
  }

  lemma OutcomeOnDisk(s: State, op: Op, v: Validators)
    requires Enabled(s, op, v) && SubmittedBy(op).Some?
    ensures var batch, disk := SubmittedBy(op).value, Outcome(s, op).disk;
      && disk.records == s.disk.records + WrittenRecords(op) && disk.outbox == s.disk.outbox + WrittenOutbox(op)
      && IsPart(WrittenRecords(op), batch.records) && IsPart(WrittenOutbox(op), batch.outbox)
      && Plausible(Entry(batch, |WrittenRecords(op)|, |WrittenOutbox(op)|, Outcome(s, op).result.Ok?), v)
  {
    assert s.disk.outbox + [] == s.disk.outbox && s.disk.records + [] == s.disk.records;
    assert Concat([]) == [];
    if op.Checkpoint? {
      SurvivedIsPrefix(op.batch.records, op.recordFault);
      SurvivedIsPrefix(op.batch.outbox, op.outboxFault);
    } else {
      SurvivedIsPrefix(op.frames, op.fault);
    }
  }

  predicate IsPart(written: seq<byte>, frames: seq<seq<byte>>) {
    |written| <= |Concat(frames)| && written == Concat(frames)[..|written|]
  }

  lemma ExtendedIsInvariant(s: State, e: Entry, records: seq<byte>, outbox: seq<byte>, lease: Option<nat>,
                            v: Validators)
    requires Invariant(s, v) && Plausible(e, v) && e.recordBytes == |records| && e.outboxBytes == |outbox|
    requires IsPart(records, e.batch.records) && IsPart(outbox, e.batch.outbox)
    requires e.batch.records == [] || AtLineBoundary(s.disk.records)
    requires e.batch.outbox == [] || AtLineBoundary(s.disk.outbox)
    ensures Invariant(State(Disk(s.disk.records + records, s.disk.outbox + outbox), lease, s.history + [e]), v)
  {
    KeptAreLines(s.history, v);
    KeptGrows(s.history, e);
    RecordsAreRepaired(s, v);
    AppendRepairs(s.disk.records, KeptRecords(s.history), e.batch.records, records, v.record);
    AppendRepairs(s.disk.outbox, KeptOutbox(s.history), e.batch.outbox, outbox, v.outbox);
  }

  lemma RecordsAreRepaired(s: State, v: Validators)
    requires Invariant(s, v)
    ensures Repaired(s.disk.records, v.record) == Ok(Concat(KeptRecords(s.history)))
    ensures Repaired(s.disk.outbox, v.outbox) == Ok(Concat(KeptOutbox(s.history)))
  {
  }

  lemma SubmitExtends(s: State, op: Op, v: Validators)
    requires Enabled(s, op, v) && SubmittedBy(op).Some?
    ensures Step(s, op, v) ==
            State(Disk(s.disk.records + WrittenRecords(op), s.disk.outbox + WrittenOutbox(op)),
                  Some(Outcome(s, op).next),
                  s.history + [Entry(SubmittedBy(op).value, |WrittenRecords(op)|, |WrittenOutbox(op)|,
                                     Outcome(s, op).result.Ok?)])
  {
    OutcomeOnDisk(s, op, v);
  }

  lemma SubmitKeepsInvariant(s: State, op: Op, v: Validators)
    requires Invariant(s, v) && Enabled(s, op, v) && AtBoundaries(s, op) && SubmittedBy(op).Some?
    ensures Invariant(Step(s, op, v), v)
  {
    OutcomeOnDisk(s, op, v);
    SubmitExtends(s, op, v);
    var e := Entry(SubmittedBy(op).value, |WrittenRecords(op)|, |WrittenOutbox(op)|, Outcome(s, op).result.Ok?);
    ExtendedIsInvariant(s, e, WrittenRecords(op), WrittenOutbox(op), Some(Outcome(s, op).next), v);
  }

  lemma StepKeepsInvariant(s: State, op: Op, v: Validators)
    requires Invariant(s, v) && Enabled(s, op, v) && AtBoundaries(s, op)
    ensures Invariant(Step(s, op, v), v)
  {
    if SubmittedBy(op).Some? {
      SubmitKeepsInvariant(s, op, v);
    } else if op.Acquire? || op.RepairForRead? || op.CrashedRepair? {
      RepairKeepsInvariant(s, v);
    }
  }

  // A repair ends both logs where a line does, a second one changes nothing, and one that died half way
  // is completed by the next.
  lemma RepairKeepsInvariant(s: State, v: Validators)
    requires Invariant(s, v)
    ensures var disk := RepairBoth(s, v).value;
      && AtLineBoundary(disk.records) && AtLineBoundary(disk.outbox)
      && Invariant(s.(disk := disk), v)
      && Invariant(s.(disk := s.disk.(records := disk.records)), v)
  {
    KeptAreLines(s.history, v);
    ConcatAtBoundary(KeptRecords(s.history));
    ConcatAtBoundary(KeptOutbox(s.history));
  }

  lemma {:induction false} RunKeepsInvariant(s: State, ops: seq<Op>, v: Validators)
    requires Invariant(s, v) && CarefulRun(s, ops, v)
    ensures ValidRun(s, ops, v) && Invariant(Run(s, ops, v), v)
    decreases |ops|
  {
    if ops != [] {
      StepKeepsInvariant(s, ops[0], v);
      RunKeepsInvariant(Step(s, ops[0], v), ops[1..], v);
    }
  }

  // ---------------------------------------------------------------- durability

  function Submitted(ops: seq<Op>): seq<Batch> {
    if ops == [] then [] else SubmittedOnce(ops[0]) + Submitted(ops[1..])
  }

  function SubmittedOnce(op: Op): seq<Batch> {
    if SubmittedBy(op).Some? then [SubmittedBy(op).value] else []
  }

  function Batches(history: seq<Entry>): (r: seq<Batch>)
    ensures |r| == |history|
  {
    if history == [] then [] else Batches(history[..|history| - 1]) + [history[|history| - 1].batch]
  }

  lemma {:induction false} HistoryIsSubmissions(s: State, ops: seq<Op>, v: Validators)
    requires ValidRun(s, ops, v)
    ensures Batches(Run(s, ops, v).history) == Batches(s.history) + Submitted(ops)
    decreases |ops|
  {
    if ops != [] {
      var s', first, rest := Step(s, ops[0], v), SubmittedOnce(ops[0]), Submitted(ops[1..]);
      HistoryIsSubmissions(s', ops[1..], v);
      StepSubmits(s, ops[0], v);
      assert Run(s, ops, v) == Run(s', ops[1..], v);
      Associative(Batches(s.history), first, rest);
    }
  }

  lemma StepSubmits(s: State, op: Op, v: Validators)
    requires Enabled(s, op, v)
    ensures Batches(Step(s, op, v).history) == Batches(s.history) + SubmittedOnce(op)
  {
    var s' := Step(s, op, v);
    if s'.history != s.history {
      assert s'.history[..|s'.history| - 1] == s.history;
    }
  }

  // The logs hold, in order, a prefix of each submitted batch and nothing else, once repaired; repairing
  // does not fail, and is not needed at a boundary; an acknowledged batch is there in full, and one
  // surviving record byte means that the whole outbox of its checkpoint is there.
  ghost predicate IsDurable(s: State, submitted: seq<Batch>, v: Validators) {
    var kept := Disk(Concat(KeptRecords(s.history)), Concat(KeptOutbox(s.history)));
    && Batches(s.history) == submitted
    && RepairBoth(s, v) == Ok(kept)
    && (AtLineBoundary(s.disk.records) ==> s.disk.records == kept.records)
    && (AtLineBoundary(s.disk.outbox) ==> s.disk.outbox == kept.outbox)
    && forall i :: 0 <= i < |s.history| ==>
      var e := s.history[i];
      && (e.acknowledged ==> Kept(e.batch.records, e.recordBytes) == |e.batch.records|)
      && (e.acknowledged || e.recordBytes > 0 ==> Kept(e.batch.outbox, e.outboxBytes) == |e.batch.outbox|)
  }

  /** Durability over every run whose appends start at line boundaries. */
  lemma JournalIsDurable(ops: seq<Op>, v: Validators)
    requires CarefulRun(EMPTY, ops, v)
    ensures ValidRun(EMPTY, ops, v)
    ensures IsDurable(Run(EMPTY, ops, v), Submitted(ops), v)
  {
    NewRunIsDurable(EMPTY, ops, v);
  }

  lemma NewRunIsDurable(s: State, ops: seq<Op>, v: Validators)
    requires Invariant(s, v) && s.history == [] && CarefulRun(s, ops, v)
    ensures ValidRun(s, ops, v) && IsDurable(Run(s, ops, v), Submitted(ops), v)
  {
    RunKeepsInvariant(s, ops, v);
    HistoryIsSubmissions(s, ops, v);
    assert Batches(s.history) + Submitted(ops) == Submitted(ops);
    InvariantIsDurable(Run(s, ops, v), Submitted(ops), v);
  }

  lemma InvariantIsDurable(s: State, submitted: seq<Batch>, v: Validators)
    requires Invariant(s, v) && Batches(s.history) == submitted
    ensures IsDurable(s, submitted, v)
  {
    AcknowledgedIsKept(s.history, v);
  }

  lemma AcknowledgedIsKept(history: seq<Entry>, v: Validators)
    requires forall i :: 0 <= i < |history| ==> Plausible(history[i], v)
    ensures forall i :: 0 <= i < |history| ==>
      var e := history[i];
      && (e.acknowledged ==> Kept(e.batch.records, e.recordBytes) == |e.batch.records|)
      && (e.acknowledged || e.recordBytes > 0 ==> Kept(e.batch.outbox, e.outboxBytes) == |e.batch.outbox|)
  {
    forall i | 0 <= i < |history|
      ensures var e := history[i];
        && (e.acknowledged ==> Kept(e.batch.records, e.recordBytes) == |e.batch.records|)
        && (e.acknowledged || e.recordBytes > 0 ==> Kept(e.batch.outbox, e.outboxBytes) == |e.batch.outbox|)
    {
      KeptAll(history[i].batch.records);
      KeptAll(history[i].batch.outbox);
    }
  }

  // Whether the last append failed and has not been repaired since.
  function FailedAfter(s: State, failed: bool, op: Op, v: Validators): bool
    requires Enabled(s, op, v)
  {
    match op
    case Acquire(_) => false
    case RepairForRead => false
    case _ => if SubmittedBy(op).Some? then Outcome(s, op).result.Err? else failed
  }

  // Runs that repair after every failed append, before the next one.
  ghost predicate RepairingRun(s: State, failed: bool, ops: seq<Op>, v: Validators)
    decreases |ops|
  {
    ops == [] || (
      && Enabled(s, ops[0], v) && (SubmittedBy(ops[0]).Some? ==> !failed)
      && RepairingRun(Step(s, ops[0], v), FailedAfter(s, failed, ops[0], v), ops[1..], v))
  }

  predicate BothAtBoundary(disk: Disk) {
    AtLineBoundary(disk.records) && AtLineBoundary(disk.outbox)
  }

  /** Such runs are careful ones, so durability holds for them. */
  lemma {:induction false} RepairingRunsAreCareful(s: State, failed: bool, ops: seq<Op>, v: Validators)
    requires Invariant(s, v) && RepairingRun(s, failed, ops, v) && (!failed ==> BothAtBoundary(s.disk))
    ensures CarefulRun(s, ops, v)
    decreases |ops|
  {
    if ops != [] {
      StepKeepsInvariant(s, ops[0], v);
      if SubmittedBy(ops[0]).Some? && Outcome(s, ops[0]).result.Ok? {
        SuccessEndsAtBoundary(s, ops[0], v);
      } else if ops[0].Acquire? || ops[0].RepairForRead? || ops[0].CrashedRepair? {
        RepairKeepsInvariant(s, v);
      }
      RepairingRunsAreCareful(Step(s, ops[0], v), FailedAfter(s, failed, ops[0], v), ops[1..], v);
    }
  }

  lemma SuccessEndsAtBoundary(s: State, op: Op, v: Validators)
    requires Enabled(s, op, v) && SubmittedBy(op).Some? && Outcome(s, op).result.Ok? && BothAtBoundary(s.disk)
    ensures BothAtBoundary(Step(s, op, v).disk)
  {
    var batch := SubmittedBy(op).value;
    SuccessAppends(s, op, v);
    WholeFramesEndAtBoundary(s.disk.records, batch.records);
    WholeFramesEndAtBoundary(s.disk.outbox, batch.outbox);
  }

  lemma WholeFramesEndAtBoundary(log: seq<byte>, frames: seq<seq<byte>>)
    requires AtLineBoundary(log) && AllLines(frames)
    ensures AtLineBoundary(log + Concat(frames))
  {
    ConcatAtBoundary(frames);
    var all := Concat(frames);
    if all == [] {
      assert log + all == log;
    } else {
      assert (log + all)[|log + all| - 1] == all[|all| - 1];
    }
  }

  // An acknowledged append has written all of its batch.
  lemma SuccessAppends(s: State, op: Op, v: Validators)
    requires Enabled(s, op, v) && SubmittedBy(op).Some? && Outcome(s, op).result.Ok?
    ensures var s', batch := Step(s, op, v), SubmittedBy(op).value;
      && s'.disk.records == s.disk.records + Concat(batch.records)
      && s'.disk.outbox == s.disk.outbox + Concat(batch.outbox)
      && s'.history[|s'.history| - 1].acknowledged
  {
    assert s.disk.outbox + [] == s.disk.outbox;
  }

  // No fault strikes a part of the batch that there is something to write of.
  predicate NoFault(op: Op) {
    match op
    case Append(frames, _, fault) => frames == [] || fault == None
    case Checkpoint(batch, _, recordFault, outboxFault) =>
      batch.records != [] && recordFault == None && (batch.outbox == [] || outboxFault == None)
    case _ => true
  }

  /** When an append is acknowledged, in any state: if and only if nothing failed, the committed sequence does
      not fall behind the lease, and it is not the last number there is. The lease then stands right behind it,
      and otherwise stays. */
  lemma AcknowledgedExactly(s: State, op: Op, v: Validators)
    requires Enabled(s, op, v) && (op.Append? || op.Checkpoint?)
    ensures var ok, s' :=
        NoFault(op) && s.lease.value <= op.committed + 1 && op.committed < MAX_U64, Step(s, op, v);
      && s'.lease == Some(if ok then op.committed + 1 else s.lease.value)
      && (SubmittedBy(op).Some? ==>
        |s'.history| == |s.history| + 1 && (s'.history[|s.history|].acknowledged <==> ok))
      && (SubmittedBy(op).None? ==> s' == s && !ok)
  {
  }

  /** The lease moves only when the whole batch is on both logs. */
  lemma LeaseMovesOnSuccessOnly(s: State, op: Op, v: Validators)
    requires Enabled(s, op, v) && (op.Append? || op.Checkpoint?)
    requires Step(s, op, v).lease != s.lease
    ensures var s' := Step(s, op, v);
      && s'.lease == Some(op.committed + 1)
      && CommittedSequence(s.lease.value) <= op.committed
      && s'.disk.records == s.disk.records + Concat(if op.Append? then op.frames else op.batch.records)
      && s'.disk.outbox == s.disk.outbox + Concat(if op.Append? then [] else op.batch.outbox)
  {
    SuccessAppends(s, op, v);
  }
}
