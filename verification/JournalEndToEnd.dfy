// The journal as a whole: what a reader of the tail sees after any run of the writer.
module JournalEndToEnd {
  import opened Wrappers
  import opened Bytes
  import opened JournalStorage
  import opened JournalLines
  import opened JournalRuns
  import opened JournalNumbers
  import opened JournalRetries
  import opened JournalTail
  import opened JournalTailLogs

  // The reader decodes every frame the writer's validator accepts, to the number the writer gave it.
  ghost predicate Reads<T>(codec: Codec<T>, accepts: Validator, number: seq<byte> -> nat) {
    forall f: seq<byte> :: IsFrame(f, accepts) ==>
      var item := codec.decode(Body(f));
      item.Ok? && codec.sequence(item.value) == Ok(number(f))
  }

  function Decoded<T>(frames: seq<seq<byte>>, codec: Codec<T>): (items: seq<T>)
    requires forall i :: 0 <= i < |frames| ==> frames[i] != [] && codec.decode(Body(frames[i])).Ok?
    ensures |items| == |frames|
    ensures forall i :: 0 <= i < |items| ==> codec.decode(Body(frames[i])) == Ok(items[i])
  {
    if frames == [] then [] else [codec.decode(Body(frames[0])).value] + Decoded(frames[1..], codec)
  }

  lemma DecodedAreNumbered<T>(frames: seq<seq<byte>>, v: Validators, number: seq<byte> -> nat, codec: Codec<T>)
    requires AllFrames(frames, v.record) && NumberedFrom(frames, 1, number) && Reads(codec, v.record, number)
    ensures forall i :: 0 <= i < |frames| ==> frames[i] != [] && codec.decode(Body(frames[i])).Ok?
    ensures Numbered(frames, Decoded(frames, codec), codec)
  {
    forall i | 0 <= i < |frames|
      ensures IsLine(frames[i]) && codec.decode(Body(frames[i])).Ok?
      ensures codec.sequence(codec.decode(Body(frames[i])).value) == Ok(i + 1)
    {
      assert IsFrame(frames[i], v.record) && number(frames[i]) == 1 + i;
    }
  }

  /** After any numbered run, whatever failed in between, the repaired log reads as exactly the longest
      suffix of the surviving records that the budget allows; the only misreading is the one where the
      byte budget excludes the first record alone. */
  lemma TailAfterAnyRun<T>(ops: seq<Op>, v: Validators, number: seq<byte> -> nat, codec: Codec<T>, budget: Budget,
                           k: nat)
    requires NumberedRun(EMPTY, ops, v, number) && ValidRun(EMPTY, ops, v)
    requires Reads(codec, v.record, number)
    requires budget.maxItems > 0 && budget.maxBytes > 0
    requires IsLongestSuffix(KeptRecords(Run(EMPTY, ops, v).history), budget, k)
    ensures var s := Run(EMPTY, ops, v);
      var frames := KeptRecords(s.history);
      && AllFrames(frames, v.record)
      && RepairBoth(s, v).Ok?
      && var page := TailPage(RepairBoth(s, v).value.records, budget, codec);
         if OnlyFirstExcluded(frames, budget) then page == Err(Corrupt)
         else page.Ok? && IsPageOf(page.value, frames, Decoded(frames, codec), budget, k)
  {
    EmptyJournalIsContiguous(v, number);
    SequencesStayContiguous(EMPTY, ops, v, number);
    var s := Run(EMPTY, ops, v);
    KeptAreLines(s.history, v);
    var frames := KeptRecords(s.history);
    DecodedAreNumbered(frames, v, number, codec);
    TailPageOfHealthyLog(frames, Decoded(frames, codec), codec, budget, k);
  }

  /** In particular after any run that repairs after every failed append. */
  lemma TailAfterRepairingRun<T>(ops: seq<Op>, v: Validators, number: seq<byte> -> nat, codec: Codec<T>,
                                 budget: Budget, k: nat)
    requires NumberedRepairingRun(EMPTY, false, ops, v, number) && ValidRun(EMPTY, ops, v)
    requires Reads(codec, v.record, number)
    requires budget.maxItems > 0 && budget.maxBytes > 0
    requires IsLongestSuffix(KeptRecords(Run(EMPTY, ops, v).history), budget, k)
    ensures var s := Run(EMPTY, ops, v);
      var frames := KeptRecords(s.history);
      && AllFrames(frames, v.record)
      && RepairBoth(s, v).Ok?
      && var page := TailPage(RepairBoth(s, v).value.records, budget, codec);
         if OnlyFirstExcluded(frames, budget) then page == Err(Corrupt)
         else page.Ok? && IsPageOf(page.value, frames, Decoded(frames, codec), budget, k)
  {
    EmptyJournalIsContiguous(v, number);
    RepairingRunsAreNumbered(EMPTY, false, ops, v, number);
    TailAfterAnyRun(ops, v, number, codec, budget, k);
  }

  /** The log that a reused number leaves behind is corrupt to every reader that could show both records. */
  lemma ReusedNumberIsNeverShown<T>(f: seq<byte>, g: seq<byte>, v: Validators, number: seq<byte> -> nat,
                                    codec: Codec<T>, budget: Budget)
    requires IsFrame(f, v.record) && IsFrame(g, v.record) && number(f) == 1 && number(g) == 1
    requires Reads(codec, v.record, number)
    requires budget.maxItems >= 2 && budget.maxBytes >= |f| + |g|
    ensures ValidRun(EMPTY, ReusingRun(f, g), v)
    ensures TailPage(Run(EMPTY, ReusingRun(f, g), v).disk.records, budget, codec) == Err(Corrupt)
  {
    NumberIsReused(f, g, v, number);
    TwoOfOneNumber(f, g, codec, budget);
  }

  lemma TwoOfOneNumber<T>(f: seq<byte>, g: seq<byte>, codec: Codec<T>, budget: Budget)
    requires IsLine(f) && IsLine(g) && budget.maxItems >= 2 && budget.maxBytes >= |f| + |g|
    requires Readable(f, codec) && Readable(g, codec) && Number(f, codec) == Number(g, codec)
    ensures TailPage(f + g, budget, codec) == Err(Corrupt)
  {
    var frames := [f, g];
    BothFit(f, g, budget);
    GapIsCorrupt(frames, codec, budget, 2, 1);
  }

  lemma BothFit(f: seq<byte>, g: seq<byte>, budget: Budget)
    requires budget.maxItems >= 2 && budget.maxBytes >= |f| + |g|
    ensures Concat([f, g]) == f + g && IsLongestSuffix([f, g], budget, 2)
  {
    assert [f, g][1..] == [g];
    SingleFrame(g);
    assert SuffixBytes([f, g], 2) == SuffixBytes([f, g], 1) + |f| == |g| + |f|;
  }
}
