// Appending again under the lease that a failed append left behind. The code allows it, and the
// session writer does it: crates/coding-agent/src/session/transaction/writer.rs takes its lease
// once (line 23) and keeps it across failed commands (lines 37-57).
module JournalRetries {
  import opened Wrappers
  import opened Laws
  import opened Bytes
  import opened JournalStorage
  import opened JournalLines
  import opened JournalRuns
  import opened JournalNumbers

  // ---------------------------------------------------------------- what stays on the logs

  lemma RepairKeepsWholeLines(b: seq<byte>, accepts: Validator, p: seq<byte>)
    requires p <= b && AtLineBoundary(p) && Repaired(b, accepts).Ok?
    ensures p <= Repaired(b, accepts).value
  {
    if b != [] && b[|b| - 1] != NL && p != [] {
      var windowStart := if |b| <= MAX_JOURNAL_RECORD_BYTES + 1 then 0 else |b| - (MAX_JOURNAL_RECORD_BYTES + 1);
      var window := b[windowStart..];
      assert b[|p| - 1] == NL;
      if |p| > windowStart {
        assert window[|p| - 1 - windowStart] == NL;
      }
      assert |p| <= TailStart(b).value;
    }
  }

  lemma RepairStepKeepsWholeLines(s: State, op: Op, v: Validators, records: seq<byte>, outbox: seq<byte>)
    requires Enabled(s, op, v) && SubmittedBy(op).None? && AtLineBoundary(records) && AtLineBoundary(outbox)
    requires records <= s.disk.records && outbox <= s.disk.outbox
    ensures var s' := Step(s, op, v); records <= s'.disk.records && outbox <= s'.disk.outbox
  {
    if Repaired(s.disk.records, v.record).Ok? {
      RepairKeepsWholeLines(s.disk.records, v.record, records);
    }
    if Repaired(s.disk.outbox, v.outbox).Ok? {
      RepairKeepsWholeLines(s.disk.outbox, v.outbox, outbox);
    }
  }

  // Whole lines are never taken off a log, whatever is done to it.
  lemma StepKeepsWholeLines(s: State, op: Op, v: Validators, records: seq<byte>, outbox: seq<byte>)
    requires Enabled(s, op, v) && AtLineBoundary(records) && AtLineBoundary(outbox)
    requires records <= s.disk.records && outbox <= s.disk.outbox
    ensures var s' := Step(s, op, v); records <= s'.disk.records && outbox <= s'.disk.outbox
  {
    if SubmittedBy(op).Some? {
      SubmitExtends(s, op, v);
    } else {
      RepairStepKeepsWholeLines(s, op, v, records, outbox);
    }
  }

  lemma {:induction false} RunKeepsWholeLines(s: State, ops: seq<Op>, v: Validators, records: seq<byte>,
                                              outbox: seq<byte>)
    requires ValidRun(s, ops, v) && AtLineBoundary(records) && AtLineBoundary(outbox)
    requires records <= s.disk.records && outbox <= s.disk.outbox
    ensures var s' := Run(s, ops, v); records <= s'.disk.records && outbox <= s'.disk.outbox
    decreases |ops|
  {
    if ops != [] {
      StepKeepsWholeLines(s, ops[0], v, records, outbox);
      RunKeepsWholeLines(Step(s, ops[0], v), ops[1..], v, records, outbox);
    }
  }

  // ---------------------------------------------------------------- what can be read back

  // The log reads as what stood before, followed by the frames, and then anything.
  predicate ReadsBack(log: seq<byte>, before: seq<byte>, frames: seq<seq<byte>>)
    requires AllLines(frames)
  {
    var now, earlier := ForwardLines(log), ForwardLines(before);
    now.Ok? && earlier.Ok? && earlier.value + Bodies(frames) <= now.value
  }

  lemma ReadsBackAtBoundary(before: seq<byte>, frames: seq<seq<byte>>, rest: seq<byte>)
    requires AllLines(frames) && AtLineBoundary(before)
    requires ForwardLines(before + (Concat(frames) + rest)).Ok?
    ensures ReadsBack(before + (Concat(frames) + rest), before, frames)
  {
    ForwardSplit(before, Concat(frames) + rest);
    ConcatAtBoundary(frames);
    ForwardSplit(Concat(frames), rest);
    ForwardReadsFrames(frames);
    Associative(ForwardLines(before).value, Bodies(frames), ForwardLines(rest).value);
  }

  // Behind an unterminated line the first frame becomes part of that line.
  lemma {:induction false} MergesBehindTornLine(before: seq<byte>, f: seq<byte>, rest: seq<byte>)
    requires !AtLineBoundary(before) && IsLine(f) && ForwardLines(before + (f + rest)).Ok?
    ensures ForwardLines(before).Ok? && ForwardLines(before).value != []
    ensures var lines, now := ForwardLines(before).value, ForwardLines(before + (f + rest)).value;
      |lines| <= |now| && now[|lines| - 1] == lines[|lines| - 1] + Body(f)
  {
    var p, line, terminated := SplitLastLine(before);
    BodyEnded(f);
    var merged := line + Body(f);
    assert before + (f + rest) == p + (Ended(merged, true) + rest);
    assert AtLineBoundary(Ended(merged, true));
    ForwardSplit(p, Ended(merged, true) + rest);
    ForwardSplit(Ended(merged, true), rest);
    ForwardOne(merged, true);
    assert StripCr(merged) == merged;
    ForwardSplit(p, line);
    ForwardOne(line, false);
  }

  lemma NotReadBehindTornLine(before: seq<byte>, frames: seq<seq<byte>>, rest: seq<byte>)
    requires !AtLineBoundary(before) && frames != [] && AllLines(frames)
    requires ForwardLines(before + (Concat(frames) + rest)).Ok?
    ensures !ReadsBack(before + (Concat(frames) + rest), before, frames)
  {
    var others := Concat(frames[1..]) + rest;
    Associative(frames[0], Concat(frames[1..]), rest);
    MergesBehindTornLine(before, frames[0], others);
    BodyEnded(frames[0]);
    LongerLine(ForwardLines(before).value, Bodies(frames), ForwardLines(before + (frames[0] + others)).value);
  }

  lemma LongerLine(lines: seq<seq<byte>>, more: seq<seq<byte>>, now: seq<seq<byte>>)
    requires lines != [] && |lines| <= |now| && |now[|lines| - 1]| > |lines[|lines| - 1]|
    ensures !(lines + more <= now)
  {
    assert (lines + more)[|lines| - 1] == lines[|lines| - 1];
  }

  /** Frames can be read back, in place, exactly when their log ended at a line boundary. */
  lemma ReadsBackExactly(before: seq<byte>, frames: seq<seq<byte>>, rest: seq<byte>)
    requires frames != [] && AllLines(frames)
    ensures var log := before + (Concat(frames) + rest);
      ReadsBack(log, before, frames) <==> ForwardLines(log).Ok? && AtLineBoundary(before)
  {
    if ForwardLines(before + (Concat(frames) + rest)).Ok? {
      if AtLineBoundary(before) {
        ReadsBackAtBoundary(before, frames, rest);
      } else {
        NotReadBehindTornLine(before, frames, rest);
      }
    }
  }

  lemma ReadsBackIn(log: seq<byte>, before: seq<byte>, frames: seq<seq<byte>>)
    requires frames != [] && AllLines(frames) && before + Concat(frames) <= log
    ensures ReadsBack(log, before, frames) <==> ForwardLines(log).Ok? && AtLineBoundary(before)
  {
    var rest := log[|before + Concat(frames)|..];
    assert log == before + (Concat(frames) + rest);
    ReadsBackExactly(before, frames, rest);
  }

  /** For every state and every later run, with or without repairs: the bytes of an acknowledged batch stay
      where they were written, and its records and its outbox can be read back there if and only if their
      log ended at a line boundary when the append began and still reads. */
  lemma AcknowledgedReadsBackExactlyAtBoundaries(s: State, op: Op, later: seq<Op>, v: Validators)
    requires Enabled(s, op, v) && ValidRun(Step(s, op, v), later, v)
    requires SubmittedBy(op).Some? && Outcome(s, op).result.Ok?
    ensures var batch, after := SubmittedBy(op).value, Run(Step(s, op, v), later, v).disk;
      && (batch.records != [] ==>
        && s.disk.records + Concat(batch.records) <= after.records
        && (ReadsBack(after.records, s.disk.records, batch.records) <==>
            ForwardLines(after.records).Ok? && AtLineBoundary(s.disk.records)))
      && (batch.outbox != [] ==>
        && s.disk.outbox + Concat(batch.outbox) <= after.outbox
        && (ReadsBack(after.outbox, s.disk.outbox, batch.outbox) <==>
            ForwardLines(after.outbox).Ok? && AtLineBoundary(s.disk.outbox)))
  {
    var batch, s' := SubmittedBy(op).value, Step(s, op, v);
    SuccessAppends(s, op, v);
    var records := if batch.records != [] then s'.disk.records else [];
    var outbox := if batch.outbox != [] then s'.disk.outbox else [];
    EndsAtBoundary(s.disk.records, batch.records);
    EndsAtBoundary(s.disk.outbox, batch.outbox);
    RunKeepsWholeLines(s', later, v, records, outbox);
    var after := Run(s', later, v).disk;
    if batch.records != [] {
      ReadsBackIn(after.records, s.disk.records, batch.records);
    }
    if batch.outbox != [] {
      ReadsBackIn(after.outbox, s.disk.outbox, batch.outbox);
    }
  }

  /** For every state and every later run: once a single record byte of a checkpoint has survived, acknowledged
      or not, its whole outbox is on the log for good, and can be read back if and only if the outbox ended
      at a line boundary and still reads. */
  lemma RecordByteMeansWholeOutbox(s: State, op: Op, later: seq<Op>, v: Validators)
    requires Enabled(s, op, v) && ValidRun(Step(s, op, v), later, v)
    requires op.Checkpoint? && WrittenRecords(op) != [] && op.batch.records != [] && op.batch.outbox != []
    ensures var after, outbox := Run(Step(s, op, v), later, v).disk.outbox, op.batch.outbox;
      && s.disk.outbox + Concat(outbox) <= after
      && (ReadsBack(after, s.disk.outbox, outbox) <==> ForwardLines(after).Ok? && AtLineBoundary(s.disk.outbox))
  {
    OutcomeOnDisk(s, op, v);
    SubmitExtends(s, op, v);
    EndsAtBoundary(s.disk.outbox, op.batch.outbox);
    var s' := Step(s, op, v);
    RunKeepsWholeLines(s', later, v, [], s'.disk.outbox);
    ReadsBackIn(Run(s', later, v).disk.outbox, s.disk.outbox, op.batch.outbox);
  }

  lemma EndsAtBoundary(log: seq<byte>, frames: seq<seq<byte>>)
    requires AllLines(frames)
    ensures frames != [] ==> AtLineBoundary(log + Concat(frames))
  {
    ConcatAtBoundary(frames);
    var all := Concat(frames);
    if frames != [] {
      assert (log + all)[|log + all| - 1] == all[|all| - 1];
    }
  }

  // ---------------------------------------------------------------- two runs that lose

  /** One byte of a failed append, then another append under the same lease: the second is acknowledged, its
      record is part of a longer line, and no repair will touch it. */
  lemma AcknowledgedRecordIsLost(f: seq<byte>, g: seq<byte>, v: Validators)
    requires IsFrame(f, v.record) && IsFrame(g, v.record)
    ensures var ops := [Acquire(1), Append([f], 1, Some(WriteAfterBytes(1))), Append([g], 1, None)];
      && ValidRun(EMPTY, ops, v)
      && var s := Run(EMPTY, ops, v);
         && |s.history| == 2 && s.history[1] == Entry(Batch([g], []), |g|, 0, true)
         && s.disk.records == [f[0]] + g
         && RepairBoth(s, v) == Ok(s.disk)
         && ForwardLines(s.disk.records)
            == if |g| < MAX_JOURNAL_RECORD_BYTES then Ok([[f[0]] + Body(g)]) else Err(Corrupt)
  {
    var first, second := Append([f], 1, Some(WriteAfterBytes(1))), Append([g], 1, None);
    var s2 := State(Disk([f[0]], []), Some(1), [Entry(Batch([f], []), 1, 0, false)]);
    LeaseOnEmpty(v);
    OneByteOf(f, v);
    AppendAlone(s2, g, v);
    ThreeSteps(EMPTY, Acquire(1), first, second, v, Leased(), s2);
    OneMergedLine(f[0], g);
    assert ([f[0]] + g)[|g|] == NL;
  }

  lemma OneMergedLine(c: byte, g: seq<byte>)
    requires IsLine(g) && c != NL
    ensures ForwardLines([c] + g) == if |g| < MAX_JOURNAL_RECORD_BYTES then Ok([[c] + Body(g)]) else Err(Corrupt)
  {
    BodyEnded(g);
    var line := [c] + Body(g);
    assert [c] + g == Ended(line, true);
    ForwardOne(line, true);
    assert StripCr(line) == line;
  }

  // An empty journal under its first lease.
  function Leased(): State {
    State(Disk([], []), Some(1), [])
  }

  lemma LeaseOnEmpty(v: Validators)
    ensures Step(EMPTY, Acquire(1), v) == Leased()
  {
  }

  lemma OneByteOf(f: seq<byte>, v: Validators)
    requires IsFrame(f, v.record)
    ensures Step(Leased(), Append([f], 1, Some(WriteAfterBytes(1))), v)
            == State(Disk([f[0]], []), Some(1), [Entry(Batch([f], []), 1, 0, false)])
  {
    SingleFrame(f);
    assert Survived([f], Some(WriteAfterBytes(1))) == [f[0]];
  }

  lemma WholeButNotSynced(f: seq<byte>, v: Validators)
    requires IsFrame(f, v.record)
    ensures Step(Leased(), Append([f], 1, Some(Sync)), v)
            == State(Disk(f, []), Some(1), [Entry(Batch([f], []), |f|, 0, false)])
  {
    SingleFrame(f);
  }

  lemma AppendAlone(s: State, g: seq<byte>, v: Validators)
    requires IsFrame(g, v.record) && s.lease == Some(1)
    ensures Step(s, Append([g], 1, None), v)
            == State(Disk(s.disk.records + g, s.disk.outbox), Some(2),
                     s.history + [Entry(Batch([g], []), |g|, 0, true)])
  {
    SingleFrame(g);
  }

  function ReusingRun(f: seq<byte>, g: seq<byte>): seq<Op> {
    [Acquire(1), Append([f], 1, Some(Sync)), Append([g], 1, None)]
  }

  /** A whole batch that failed only to sync, then another one under the same lease: both are on the log,
      with the same number. */
  lemma NumberIsReused(f: seq<byte>, g: seq<byte>, v: Validators, number: seq<byte> -> nat)
    requires IsFrame(f, v.record) && IsFrame(g, v.record) && number(f) == 1 && number(g) == 1
    ensures var ops := ReusingRun(f, g);
      && CarefulRun(EMPTY, ops, v) && ValidRun(EMPTY, ops, v)
      && Run(EMPTY, ops, v).disk.records == f + g
      && ForwardLines(f + g) == Ok([Body(f), Body(g)])
      && KeptRecords(Run(EMPTY, ops, v).history) == [f, g] && !NumberedFrom([f, g], 1, number)
  {
    ReusingStates(f, g, v);
    TwoFrames(f, g);
    KeptOfTwo(Entry(Batch([f], []), |f|, 0, false), Entry(Batch([g], []), |g|, 0, true), f, g);
    assert number([f, g][1]) != 1 + 1;
  }

  lemma ReusingStates(f: seq<byte>, g: seq<byte>, v: Validators)
    requires IsFrame(f, v.record) && IsFrame(g, v.record)
    ensures CarefulRun(EMPTY, ReusingRun(f, g), v) && ValidRun(EMPTY, ReusingRun(f, g), v)
    ensures Run(EMPTY, ReusingRun(f, g), v)
            == State(Disk(f + g, []), Some(2),
                     [Entry(Batch([f], []), |f|, 0, false), Entry(Batch([g], []), |g|, 0, true)])
  {
    var first, second := Append([f], 1, Some(Sync)), Append([g], 1, None);
    var s2 := State(Disk(f, []), Some(1), [Entry(Batch([f], []), |f|, 0, false)]);
    LeaseOnEmpty(v);
    WholeButNotSynced(f, v);
    AppendAlone(s2, g, v);
    ThreeSteps(EMPTY, Acquire(1), first, second, v, Leased(), s2);
  }

  // The lease is read off the log by a reader that wants every line to carry the next number
  // (crates/coding-agent/src/session/repository/io.rs:258-298).
  ghost predicate IsContiguous(log: seq<byte>, number: seq<byte> -> nat) {
    var lines := ForwardLines(log);
    lines.Ok? && forall i :: 0 <= i < |lines.value| ==> number(lines.value[i] + [NL]) == i + 1
  }

  lemma LinesStayInFront(log: seq<byte>, front: seq<byte>)
    requires front <= log && AtLineBoundary(front) && ForwardLines(log).Ok?
    ensures ForwardLines(front).Ok? && ForwardLines(front).value <= ForwardLines(log).value
  {
    assert log == front + log[|front|..];
    ForwardSplit(front, log[|front|..]);
  }

  lemma RepeatedNumberIsRefused(log: seq<byte>, f: seq<byte>, g: seq<byte>, number: seq<byte> -> nat)
    requires IsLine(f) && IsLine(g) && number(f) == 1 && number(g) == 1 && f + g <= log
    ensures !IsContiguous(log, number)
  {
    TwoFramesInFront(log, f, g);
    BodyEnded(g);
    assert Body(g) + [NL] == g;
  }

  lemma TwoFramesInFront(log: seq<byte>, f: seq<byte>, g: seq<byte>)
    requires IsLine(f) && IsLine(g) && f + g <= log
    ensures ForwardLines(log).Ok? ==> |ForwardLines(log).value| >= 2 && ForwardLines(log).value[1] == Body(g)
  {
    var front := f + g;
    TwoFrames(f, g);
    assert front[|front| - 1] == g[|g| - 1];
    if ForwardLines(log).Ok? {
      LinesStayInFront(log, front);
      SecondOfPrefix(Body(f), Body(g), ForwardLines(log).value);
    }
  }

  lemma SecondOfPrefix(a: seq<byte>, b: seq<byte>, lines: seq<seq<byte>>)
    requires [a, b] <= lines
    ensures |lines| >= 2 && lines[1] == b
  {
    assert [a, b][1] == b;
  }

  /** After such a run that reader refuses the log for good, before and after every repair, so that no lease is
      ever given out again. */
  lemma {:induction false} NoLeaseAfterReusedNumber(f: seq<byte>, g: seq<byte>, s: State, later: seq<Op>, v: Validators,
                                 number: seq<byte> -> nat)
    requires IsFrame(f, v.record) && IsFrame(g, v.record) && number(f) == 1 && number(g) == 1
    requires ValidRun(EMPTY, ReusingRun(f, g), v) && s == Run(EMPTY, ReusingRun(f, g), v) && ValidRun(s, later, v)
    ensures var s' := Run(s, later, v);
      && !IsContiguous(s'.disk.records, number)
      && (RepairBoth(s', v).Ok? ==> !IsContiguous(RepairBoth(s', v).value.records, number))
  {
    NumberIsReused(f, g, v, number);
    var s' := Run(s, later, v);
    WholeFramesEndAtBoundary(f, [g]);
    SingleFrame(g);
    RunKeepsWholeLines(s, later, v, f + g, []);
    RepeatedNumberIsRefused(s'.disk.records, f, g, number);
    if RepairBoth(s', v).Ok? {
      RepairKeepsWholeLines(s'.disk.records, v.record, f + g);
      RepeatedNumberIsRefused(RepairBoth(s', v).value.records, f, g, number);
    }
  }

  lemma TwoFrames(f: seq<byte>, g: seq<byte>)
    requires IsLine(f) && IsLine(g)
    ensures ForwardLines(f + g) == Ok([Body(f), Body(g)])
  {
    SingleFrame(g);
    assert [f, g][1..] == [g];
    ForwardReadsFrames([f, g]);
    assert Bodies([f, g]) == [Body(f), Body(g)];
  }

  lemma KeptOfTwo(a: Entry, b: Entry, f: seq<byte>, g: seq<byte>)
    requires IsLine(f) && a.batch.records == [f] && a.recordBytes == |f|
    requires IsLine(g) && b.batch.records == [g] && b.recordBytes == |g|
    ensures KeptRecords([a, b]) == [f, g]
  {
    SingleFrame(f);
    SingleFrame(g);
    KeptAll([f]);
    KeptAll([g]);
    assert [a, b][..1] == [a] && [a][..0] == [];
    assert KeptRecords([a]) == [] + [f][..1];
    assert KeptRecords([a, b]) == KeptRecords([a]) + [g][..1];
  }

  lemma SingleFrame(f: seq<byte>)
    ensures Concat([f]) == f
  {
    assert [f][1..] == [];
  }

  lemma FirstStep(s: State, op: Op, rest: seq<Op>, v: Validators)
    requires Enabled(s, op, v) && ValidRun(Step(s, op, v), rest, v)
    ensures ValidRun(s, [op] + rest, v) && Run(s, [op] + rest, v) == Run(Step(s, op, v), rest, v)
    ensures CarefulRun(s, [op] + rest, v) <==> AtBoundaries(s, op) && CarefulRun(Step(s, op, v), rest, v)
  {
    assert ([op] + rest)[1..] == rest;
  }

  // A run of three operations, by its states.
  lemma ThreeSteps(s: State, a: Op, b: Op, c: Op, v: Validators, s1: State, s2: State)
    requires Enabled(s, a, v) && Step(s, a, v) == s1
    requires Enabled(s1, b, v) && Step(s1, b, v) == s2
    requires Enabled(s2, c, v)
    ensures ValidRun(s, [a, b, c], v) && Run(s, [a, b, c], v) == Step(s2, c, v)
    ensures CarefulRun(s, [a, b, c], v) <==> AtBoundaries(s, a) && AtBoundaries(s1, b) && AtBoundaries(s2, c)
  {
    FirstStep(s2, c, [], v);
    assert [c] + [] == [c];
    FirstStep(s1, b, [c], v);
    assert [b] + [c] == [b, c];
    FirstStep(s, a, [b, c], v);
    assert [a] + [b, c] == [a, b, c];
  }
}
