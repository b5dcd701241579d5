// The numbers of records and the lease that gives them out (crates/event-journal/src/storage.rs:43-179).
module JournalNumbers {
  import opened Wrappers
  import opened Bytes
  import opened JournalStorage
  import opened JournalLines
  import opened JournalRuns

  // ---------------------------------------------------------------- sequence numbers

  // Frames are numbered from the lease, and the lease is read off the repaired log.
  ghost predicate NumberedFrom(frames: seq<seq<byte>>, next: nat, number: seq<byte> -> nat) {
    forall i :: 0 <= i < |frames| ==> number(frames[i]) == next + i
  }

  // An operation as a writer makes it: it commits as many records as it appends, and a lease is read off
  // the lines of the repaired log.
  predicate CountedOp(s: State, op: Op, v: Validators)
    requires Enabled(s, op, v)
  {
    match op
    case Append(frames, committed, _) => committed == CommittedSequence(s.lease.value) + |frames|
    case Checkpoint(batch, committed, _, _) => committed == CommittedSequence(s.lease.value) + |batch.records|
    case Acquire(next) =>
      (match RepairBoth(s, v)
       case Ok(disk) => ForwardLines(disk.records).Ok? && next == |ForwardLines(disk.records).value| + 1
       case Err(_) => true)
    case _ => true
  }

  ghost predicate NumberedOp(s: State, op: Op, v: Validators, number: seq<byte> -> nat)
    requires Enabled(s, op, v)
  {
    CountedOp(s, op, v)
    && (SubmittedBy(op).Some? ==> NumberedFrom(SubmittedBy(op).value.records, s.lease.value, number))
  }

  // ---------------------------------------------------------------- the lease over any run

  function Newlines(log: seq<byte>): nat {
    if log == [] then 0 else (if log[0] == NL then 1 else 0) + Newlines(log[1..])
  }

  lemma {:induction false} NewlinesAppend(a: seq<byte>, b: seq<byte>)
    ensures Newlines(a + b) == Newlines(a) + Newlines(b)
  {
    if a == [] {
      assert a + b == b;
    } else {
      assert (a + b)[1..] == a[1..] + b;
      NewlinesAppend(a[1..], b);
    }
  }

  lemma {:induction false} NoNewlines(line: seq<byte>)
    requires NoNewline(line)
    ensures Newlines(line) == 0
  {
    if line != [] {
      NoNewlines(line[1..]);
    }
  }

  lemma {:induction false} FramesHaveOneEach(frames: seq<seq<byte>>)
    requires AllLines(frames)
    ensures Newlines(Concat(frames)) == |frames|
  {
    if frames != [] {
      BodyEnded(frames[0]);
      OneNewline(Body(frames[0]));
      FramesHaveOneEach(frames[1..]);
      NewlinesAppend(frames[0], Concat(frames[1..]));
    }
  }

  lemma OneNewline(line: seq<byte>)
    requires NoNewline(line)
    ensures Newlines(line + [NL]) == 1
  {
    NoNewlines(line);
    NewlinesAppend(line, [NL]);
    assert [NL][1..] == [];
  }

  // A log that ends where a line does has as many lines as newlines.
  lemma {:induction false} LinesAreNewlines(log: seq<byte>)
    requires AtLineBoundary(log) && ForwardLines(log).Ok?
    ensures |ForwardLines(log).value| == Newlines(log)
    decreases |log|
  {
    if log != [] {
      var k := FirstNewline(log);
      assert log[|log| - 1] == NL;
      var line, rest := log[..k], log[k + 1..];
      assert log == line + [NL] + rest;
      assert NextLine(log).Line? && NextLine(log).consumed == k + 1;
      OneNewline(line);
      NewlinesAppend(line + [NL], rest);
      LinesAreNewlines(rest);
    }
  }

  // A repair may complete a line but takes none away.
  lemma RepairKeepsNewlines(log: seq<byte>, accepts: Validator)
    requires Repaired(log, accepts).Ok?
    ensures var repaired := Repaired(log, accepts).value;
      AtLineBoundary(repaired) && Newlines(log) <= Newlines(repaired)
  {
    if log != [] && log[|log| - 1] != NL {
      var start := TailStart(log).value;
      TailHasNoNewline(log);
      NoNewlines(log[start..]);
      assert log == log[..start] + log[start..];
      NewlinesAppend(log[..start], log[start..]);
      NewlinesAppend(log, [NL]);
    }
  }

  lemma TailHasNoNewline(log: seq<byte>)
    requires log != [] && log[|log| - 1] != NL && TailStart(log).Some?
    ensures TailStart(log).value <= |log| && NoNewline(log[TailStart(log).value..])
    ensures AtLineBoundary(log[..TailStart(log).value])
  {
    var windowStart :=
      if |log| <= MAX_JOURNAL_RECORD_BYTES + 1 then 0 else |log| - (MAX_JOURNAL_RECORD_BYTES + 1);
    var window := log[windowStart..];
    var k := LastLineStart(window);
    assert forall i :: k <= i < |window| ==> window[i] == log[windowStart + i];
    if k > 0 {
      assert log[windowStart + k - 1] == window[k - 1];
    }
  }

  // Every operation of the run is one a writer makes; its logs may be torn and its lease out of step.
  ghost predicate CountedRun(s: State, ops: seq<Op>, v: Validators)
    decreases |ops|
  {
    ops == []
    || (Enabled(s, ops[0], v) && CountedOp(s, ops[0], v) && CountedRun(Step(s, ops[0], v), ops[1..], v))
  }

  predicate LeaseFits(s: State) {
    s.lease.Some? ==> 1 <= s.lease.value <= Newlines(s.disk.records) + 1
  }

  // The lease, or the one that the log would give.
  function NextLease(s: State): nat {
    if s.lease.Some? then s.lease.value else Newlines(s.disk.records) + 1
  }

  lemma SubmitKeepsLease(s: State, op: Op, v: Validators)
    requires LeaseFits(s) && Enabled(s, op, v) && CountedOp(s, op, v) && SubmittedBy(op).Some?
    ensures LeaseFits(Step(s, op, v)) && NextLease(s) <= NextLease(Step(s, op, v))
  {
    var records := SubmittedBy(op).value.records;
    SubmitExtends(s, op, v);
    NewlinesAppend(s.disk.records, WrittenRecords(op));
    LeaseAfter(s, op, v);
    if Outcome(s, op).result.Ok? {
      SuccessAppends(s, op, v);
      FramesHaveOneEach(records);
      NewlinesAppend(s.disk.records, Concat(records));
    }
  }

  lemma StepKeepsLease(s: State, op: Op, v: Validators)
    requires LeaseFits(s) && Enabled(s, op, v) && CountedOp(s, op, v)
    ensures LeaseFits(Step(s, op, v)) && NextLease(s) <= NextLease(Step(s, op, v))
  {
    if SubmittedBy(op).Some? {
      SubmitKeepsLease(s, op, v);
    } else if Repaired(s.disk.records, v.record).Ok? {
      RepairKeepsNewlines(s.disk.records, v.record);
      if op.Acquire? && RepairBoth(s, v).Ok? {
        LinesAreNewlines(RepairBoth(s, v).value.records);
      }
    }
  }

  /** Over every run, whatever fails, is torn, or is repeated under a stale lease, the committed sequence never
      decreases, from one lease to the next as well. */
  lemma {:induction false} CommittedNeverDecreases(s: State, ops: seq<Op>, v: Validators)
    requires LeaseFits(s) && CountedRun(s, ops, v)
    ensures ValidRun(s, ops, v)
    ensures var s' := Run(s, ops, v);
      && LeaseFits(s') && NextLease(s) <= NextLease(s')
      && (s.lease.Some? && s'.lease.Some? ==>
        CommittedSequence(s.lease.value) <= CommittedSequence(s'.lease.value))
    decreases |ops|
  {
    if ops != [] {
      StepKeepsLease(s, ops[0], v);
      CommittedNeverDecreases(Step(s, ops[0], v), ops[1..], v);
    }
  }

  lemma EmptyJournalFits()
    ensures LeaseFits(EMPTY)
  {
  }

  /** After any run of a writer that counts its records, whatever failed before, its next append or checkpoint
      is acknowledged if nothing fails in it and the numbers do not run out; it is then whole on both logs, and
      the lease stands right behind it. */
  lemma CountedAppendIsAcknowledged(ops: seq<Op>, op: Op, v: Validators)
    requires ValidRun(EMPTY, ops, v) && CountedRun(EMPTY, ops, v) && (op.Append? || op.Checkpoint?)
    requires var s := Run(EMPTY, ops, v);
      Enabled(s, op, v) && CountedOp(s, op, v) && NoFault(op) && op.committed < MAX_U64
    ensures var s := Run(EMPTY, ops, v);
      var s', batch := Step(s, op, v), SubmittedBy(op).value;
      && |s'.history| == |s.history| + 1 && s'.history[|s.history|].acknowledged
      && s'.lease == Some(op.committed + 1) && op.committed + 1 == s.lease.value + |batch.records|
      && s'.disk.records == s.disk.records + Concat(batch.records)
      && s'.disk.outbox == s.disk.outbox + Concat(batch.outbox)
  {
    var s := Run(EMPTY, ops, v);
    CommittedNeverDecreases(EMPTY, ops, v);
    AcknowledgedExactly(s, op, v);
    SuccessAppends(s, op, v);
  }

  // ---------------------------------------------------------------- contiguous numbers

  // The lease stands right behind the records on the log. A failed append that left a whole record
  // there breaks this, since the lease then stays where it was.
  predicate InStep(s: State, op: Op) {
    SubmittedBy(op).Some? && SubmittedBy(op).value.records != [] ==>
      var lines := ForwardLines(s.disk.records);
      s.lease.Some? && lines.Ok? && s.lease.value == |lines.value| + 1
  }

  ghost predicate NumberedRun(s: State, ops: seq<Op>, v: Validators, number: seq<byte> -> nat)
    decreases |ops|
  {
    ops == [] || (
      && Enabled(s, ops[0], v) && AtBoundaries(s, ops[0]) && InStep(s, ops[0]) && NumberedOp(s, ops[0], v, number)
      && NumberedRun(Step(s, ops[0], v), ops[1..], v, number))
  }

  lemma {:induction false} NumberedRunIsCareful(s: State, ops: seq<Op>, v: Validators, number: seq<byte> -> nat)
    requires NumberedRun(s, ops, v, number)
    ensures CarefulRun(s, ops, v)
    decreases |ops|
  {
    if ops != [] {
      NumberedRunIsCareful(Step(s, ops[0], v), ops[1..], v, number);
    }
  }

  ghost predicate SequenceInvariant(s: State, v: Validators, number: seq<byte> -> nat) {
    && Invariant(s, v)
    && NumberedFrom(KeptRecords(s.history), 1, number)
    && (s.lease.Some? ==> 1 <= s.lease.value <= |KeptRecords(s.history)| + 1)
  }

  // The lowest number that may still be given out.
  function Floor(s: State): nat {
    if s.lease.Some? then s.lease.value else |KeptRecords(s.history)| + 1
  }

  // At a boundary the lines of the record log are the kept records.
  lemma LinesAreKept(s: State, v: Validators)
    requires Invariant(s, v) && AtLineBoundary(s.disk.records)
    ensures AllLines(KeptRecords(s.history))
    ensures s.disk.records == Concat(KeptRecords(s.history))
    ensures ForwardLines(s.disk.records) == Ok(Bodies(KeptRecords(s.history)))
  {
    KeptAreLines(s.history, v);
    ForwardReadsFrames(KeptRecords(s.history));
  }

  // A submitted batch adds the frames that survive of it, and all of them on success.
  lemma SubmitKeeps(s: State, op: Op, v: Validators)
    requires Enabled(s, op, v) && SubmittedBy(op).Some?
    ensures var s', batch := Step(s, op, v), SubmittedBy(op).value;
      exists k :: 0 <= k <= |batch.records| && (Outcome(s, op).result.Ok? ==> k == |batch.records|)
                  && KeptRecords(s'.history) == KeptRecords(s.history) + batch.records[..k]
  {
    var s', batch := Step(s, op, v), SubmittedBy(op).value;
    var e := s'.history[|s'.history| - 1];
    KeptGrows(s.history, e);
    var k := Kept(batch.records, e.recordBytes);
    if Outcome(s, op).result.Ok? {
      SuccessAppends(s, op, v);
      KeptAll(batch.records);
    }
    assert KeptRecords(s'.history) == KeptRecords(s.history) + batch.records[..k];
  }

  // Numbered frames behind numbered frames.
  lemma NumbersContinue(kept: seq<seq<byte>>, frames: seq<seq<byte>>, k: nat, next: nat, number: seq<byte> -> nat)
    requires NumberedFrom(kept, 1, number) && NumberedFrom(frames, next, number) && k <= |frames|
    ensures NumberedFrom(kept + frames[..k], 1, number) <==> k == 0 || next == |kept| + 1
  {
    var all := kept + frames[..k];
    if k > 0 {
      assert all[|kept|] == frames[0];
    }
  }

  // The lease after a submitted batch.
  lemma LeaseAfter(s: State, op: Op, v: Validators)
    requires Enabled(s, op, v) && SubmittedBy(op).Some? && s.lease.value >= 1
    requires op.committed == CommittedSequence(s.lease.value) + |SubmittedBy(op).value.records|
    ensures Step(s, op, v).lease
            == Some(if Outcome(s, op).result.Ok? then s.lease.value + |SubmittedBy(op).value.records|
                    else s.lease.value)
  {
  }

  lemma SubmitKeepsSequence(s: State, op: Op, v: Validators, number: seq<byte> -> nat)
    requires SequenceInvariant(s, v, number) && SubmittedBy(op).Some?
    requires Enabled(s, op, v) && AtBoundaries(s, op) && InStep(s, op) && NumberedOp(s, op, v, number)
    ensures SequenceInvariant(Step(s, op, v), v, number)
    ensures Floor(s) <= Floor(Step(s, op, v))
  {
    StepKeepsInvariant(s, op, v);
    var s', batch, kept := Step(s, op, v), SubmittedBy(op).value, KeptRecords(s.history);
    SubmitKeeps(s, op, v);
    var k :| 0 <= k <= |batch.records| && (Outcome(s, op).result.Ok? ==> k == |batch.records|)
             && KeptRecords(s'.history) == kept + batch.records[..k];
    if batch.records != [] {
      LinesAreKept(s, v);
    }
    NumbersContinue(kept, batch.records, k, s.lease.value, number);
    LeaseAfter(s, op, v);
  }

  lemma StepKeepsSequence(s: State, op: Op, v: Validators, number: seq<byte> -> nat)
    requires SequenceInvariant(s, v, number)
    requires Enabled(s, op, v) && AtBoundaries(s, op) && InStep(s, op) && NumberedOp(s, op, v, number)
    ensures SequenceInvariant(Step(s, op, v), v, number)
    ensures Floor(s) <= Floor(Step(s, op, v))
  {
    if SubmittedBy(op).Some? {
      SubmitKeepsSequence(s, op, v, number);
    } else {
      RepairKeepsSequence(s, op, v, number);
    }
  }

  lemma RepairKeepsSequence(s: State, op: Op, v: Validators, number: seq<byte> -> nat)
    requires SequenceInvariant(s, v, number) && SubmittedBy(op).None?
    requires Enabled(s, op, v) && NumberedOp(s, op, v, number)
    ensures SequenceInvariant(Step(s, op, v), v, number)
    ensures Floor(s) <= Floor(Step(s, op, v))
  {
    StepKeepsInvariant(s, op, v);
    if op.Acquire? {
      LeaseIsReadOff(s, op, v);
    }
  }

  // A new lease stands right behind the kept records.
  lemma LeaseIsReadOff(s: State, op: Op, v: Validators)
    requires Invariant(s, v) && Enabled(s, op, v) && CountedOp(s, op, v) && op.Acquire?
    ensures Step(s, op, v).lease == Some(|KeptRecords(s.history)| + 1)
  {
    RepairKeepsInvariant(s, v);
    LinesAreKept(s.(disk := RepairBoth(s, v).value), v);
  }

  /** Over every run whose appends also find the lease in step with the log, the surviving records carry
      the numbers 1, 2, 3, ... without a gap, and the committed sequence of the lease never decreases,
      whatever fails or is re-acquired in between. */
  lemma {:induction false} SequencesStayContiguous(s: State, ops: seq<Op>, v: Validators, number: seq<byte> -> nat)
    requires SequenceInvariant(s, v, number) && NumberedRun(s, ops, v, number)
    ensures ValidRun(s, ops, v)
    ensures var s' := Run(s, ops, v);
      && SequenceInvariant(s', v, number)
      && (s.lease.Some? && s'.lease.Some? ==>
        CommittedSequence(s.lease.value) <= CommittedSequence(s'.lease.value))
      && Floor(s) <= Floor(s')
    decreases |ops|
  {
    NumberedRunIsCareful(s, ops, v, number);
    RunKeepsInvariant(s, ops, v);
    if ops != [] {
      StepKeepsSequence(s, ops[0], v, number);
      SequencesStayContiguous(Step(s, ops[0], v), ops[1..], v, number);
    }
  }

  /** Being in step is exactly what it takes: an acknowledged append of records that are numbered from the
      lease leaves the log numbered without a gap if and only if the lease was in step. */
  lemma NumbersContinueExactlyInStep(s: State, op: Op, v: Validators, number: seq<byte> -> nat)
    requires SequenceInvariant(s, v, number) && Enabled(s, op, v) && AtBoundaries(s, op)
    requires SubmittedBy(op).Some? && SubmittedBy(op).value.records != [] && Outcome(s, op).result.Ok?
    requires NumberedFrom(SubmittedBy(op).value.records, s.lease.value, number)
    ensures NumberedFrom(KeptRecords(Step(s, op, v).history), 1, number) <==> InStep(s, op)
  {
    var batch := SubmittedBy(op).value;
    LinesAreKept(s, v);
    SubmitKeeps(s, op, v);
    NumbersContinue(KeptRecords(s.history), batch.records, |batch.records|, s.lease.value, number);
  }

  lemma EmptyJournalIsContiguous(v: Validators, number: seq<byte> -> nat)
    ensures SequenceInvariant(EMPTY, v, number)
  {
  }

  // ---------------------------------------------------------------- runs that repair

  // Numbered runs that repair after every failed append, before the next one.
  ghost predicate NumberedRepairingRun(s: State, failed: bool, ops: seq<Op>, v: Validators, number: seq<byte> -> nat)
    decreases |ops|
  {
    ops == [] || (
      && Enabled(s, ops[0], v) && NumberedOp(s, ops[0], v, number) && (SubmittedBy(ops[0]).Some? ==> !failed)
      && NumberedRepairingRun(Step(s, ops[0], v), FailedAfter(s, failed, ops[0], v), ops[1..], v, number))
  }

  // Unless an append has failed, both logs end where a line does and the lease is in step.
  ghost predicate Settled(s: State, failed: bool) {
    !failed ==> BothAtBoundary(s.disk) && (s.lease.Some? ==> s.lease.value == |KeptRecords(s.history)| + 1)
  }

  lemma SettledIsInStep(s: State, op: Op, v: Validators)
    requires Invariant(s, v) && Enabled(s, op, v) && Settled(s, false)
    ensures AtBoundaries(s, op) && InStep(s, op)
  {
    LinesAreKept(s, v);
  }

  lemma SuccessSettles(s: State, op: Op, v: Validators, number: seq<byte> -> nat)
    requires SequenceInvariant(s, v, number) && Enabled(s, op, v) && NumberedOp(s, op, v, number)
    requires Settled(s, false) && SubmittedBy(op).Some? && Outcome(s, op).result.Ok?
    ensures Settled(Step(s, op, v), false)
  {
    SuccessEndsAtBoundary(s, op, v);
    SubmitKeeps(s, op, v);
    LeaseAfter(s, op, v);
  }

  lemma RepairSettles(s: State, op: Op, v: Validators, number: seq<byte> -> nat)
    requires Invariant(s, v) && Enabled(s, op, v) && NumberedOp(s, op, v, number)
    requires op.Acquire? || op.RepairForRead?
    ensures Settled(Step(s, op, v), false)
  {
    RepairKeepsInvariant(s, v);
    LinesAreKept(s.(disk := RepairBoth(s, v).value), v);
  }

  lemma StepSettles(s: State, failed: bool, op: Op, v: Validators, number: seq<byte> -> nat)
    requires SequenceInvariant(s, v, number) && Settled(s, failed)
    requires Enabled(s, op, v) && NumberedOp(s, op, v, number) && (SubmittedBy(op).Some? ==> !failed)
    ensures AtBoundaries(s, op) && InStep(s, op)
    ensures Settled(Step(s, op, v), FailedAfter(s, failed, op, v))
  {
    if SubmittedBy(op).Some? {
      SettledIsInStep(s, op, v);
      if Outcome(s, op).result.Ok? {
        SuccessSettles(s, op, v, number);
      }
    } else if op.Acquire? || op.RepairForRead? {
      RepairSettles(s, op, v, number);
    } else if op.CrashedRepair? {
      RepairKeepsInvariant(s, v);
    }
  }

  /** Such runs keep every append at a boundary and the lease in step, so all that is said of numbered runs
      holds for them. */
  lemma {:induction false} RepairingRunsAreNumbered(s: State, failed: bool, ops: seq<Op>, v: Validators,
                                                    number: seq<byte> -> nat)
    requires SequenceInvariant(s, v, number) && Settled(s, failed)
    requires NumberedRepairingRun(s, failed, ops, v, number)
    ensures NumberedRun(s, ops, v, number)
    decreases |ops|
  {
    if ops != [] {
      StepSettles(s, failed, ops[0], v, number);
      StepKeepsSequence(s, ops[0], v, number);
      RepairingRunsAreNumbered(Step(s, ops[0], v), FailedAfter(s, failed, ops[0], v), ops[1..], v, number);
    }
  }
}
