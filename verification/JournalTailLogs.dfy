// The tail page of any log of lines, and of the logs that writers leave (crates/event-journal/src/read.rs:61-139).
module JournalTailLogs {
  import opened Wrappers
  import opened Bytes
  import opened JournalStorage
  import opened JournalLines
  import opened JournalTail

  // ---------------------------------------------------------------- any log of lines

  // Size of the first n frames.
  function PrefixBytes(frames: seq<seq<byte>>, n: nat): nat
    requires n <= |frames|
  {
    if n == 0 then 0 else PrefixBytes(frames, n - 1) + |frames[n - 1]|
  }

  // Size of the last k frames.
  function SuffixBytes(frames: seq<seq<byte>>, k: nat): nat
    requires k <= |frames|
  {
    if k == 0 then 0 else SuffixBytes(frames, k - 1) + |frames[|frames| - k]|
  }

  lemma {:induction false} PrefixIsConcat(frames: seq<seq<byte>>, n: nat)
    requires n <= |frames|
    ensures PrefixBytes(frames, n) == |Concat(frames[..n])|
  {
    if n > 0 {
      PrefixIsConcat(frames, n - 1);
      assert frames[..n] == frames[..n - 1] + [frames[n - 1]];
      ConcatSnoc(frames[..n - 1], frames[n - 1]);
    }
  }

  lemma {:induction false} PrefixAndSuffix(frames: seq<seq<byte>>, k: nat)
    requires k <= |frames|
    ensures PrefixBytes(frames, |frames| - k) + SuffixBytes(frames, k) == PrefixBytes(frames, |frames|)
  {
    if k > 0 {
      PrefixAndSuffix(frames, k - 1);
    }
  }

  // The longest suffix within both budgets; one record is returned even when it alone is too large.
  ghost predicate IsLongestSuffix(frames: seq<seq<byte>>, budget: Budget, k: nat) {
    && k <= |frames| && k <= budget.maxItems
    && (frames != [] ==> k >= 1)
    && (k > 1 ==> SuffixBytes(frames, k) <= budget.maxBytes)
    && forall j :: k < j <= |frames| && j <= budget.maxItems ==> SuffixBytes(frames, j) > budget.maxBytes
  }

  // The budget leaves room for every record but the first, and the first does not fit.
  predicate OnlyFirstExcluded(frames: seq<seq<byte>>, budget: Budget) {
    && 2 <= |frames| <= budget.maxItems
    && SuffixBytes(frames, |frames| - 1) < budget.maxBytes < SuffixBytes(frames, |frames|)
  }

  lemma {:induction false} SuffixGrows(frames: seq<seq<byte>>, j: nat, k: nat)
    requires AllLines(frames) && j <= k <= |frames|
    ensures SuffixBytes(frames, k) >= SuffixBytes(frames, j) + 2 * (k - j)
    decreases k - j
  {
    if j < k {
      SuffixGrows(frames, j, k - 1);
    }
  }

  // A frame that decodes to a record with a sequence number.
  predicate Readable<T>(frame: seq<byte>, codec: Codec<T>) {
    frame != [] && codec.decode(Body(frame)).Ok? && codec.sequence(codec.decode(Body(frame)).value).Ok?
  }

  function Item<T>(frame: seq<byte>, codec: Codec<T>): T
    requires Readable(frame, codec)
  {
    codec.decode(Body(frame)).value
  }

  function Number<T>(frame: seq<byte>, codec: Codec<T>): nat
    requires Readable(frame, codec)
  {
    codec.sequence(Item(frame, codec)).value
  }

  // The last k frames decode, and the numbers of neighbours grow by exactly one.
  ghost predicate SuffixReads<T>(frames: seq<seq<byte>>, codec: Codec<T>, k: nat)
    requires k <= |frames|
  {
    && (forall i :: |frames| - k <= i < |frames| ==> Readable(frames[i], codec))
    && forall i :: |frames| - k < i < |frames| ==> Follows(frames, codec, i)
  }

  // The number of a frame is one more than that of the frame before it.
  predicate Follows<T>(frames: seq<seq<byte>>, codec: Codec<T>, i: nat)
    requires 0 < i < |frames|
  {
    && Readable(frames[i - 1], codec) && Readable(frames[i], codec)
    && Number(frames[i], codec) == Number(frames[i - 1], codec) + 1
  }

  // The records of the last k frames.
  ghost function Items<T>(frames: seq<seq<byte>>, codec: Codec<T>, k: nat): (items: seq<T>)
    requires k <= |frames| && SuffixReads(frames, codec, k)
    ensures |items| == k
    ensures forall i :: 0 <= i < k ==> items[i] == Item(frames[|frames| - k + i], codec)
  {
    seq(k, i requires 0 <= i < k => Item(frames[|frames| - k + i], codec))
  }

  // Why the line before the last k frames is refused: it does not decode, it has no number, or its number
  // does not precede the one behind it.
  function ReadError<T>(frame: seq<byte>, codec: Codec<T>): JournalError {
    if frame != [] && codec.decode(Body(frame)).Err? then codec.decode(Body(frame)).error
    else if frame != [] && codec.sequence(codec.decode(Body(frame)).value).Err?
    then codec.sequence(codec.decode(Body(frame)).value).error
    else Corrupt
  }

  // The scan after the last k records.
  ghost function Scanned<T>(frames: seq<seq<byte>>, codec: Codec<T>, k: nat): Scan<T>
    requires k <= |frames| && SuffixReads(frames, codec, k)
  {
    var offset := PrefixBytes(frames, |frames| - k);
    Scan(offset, Reversed(Items(frames, codec, k)), SuffixBytes(frames, k),
         if k == 0 then None else Some(Number(frames[|frames| - k], codec)),
         offset)
  }

  lemma {:induction false} LineBeforeSuffix(frames: seq<seq<byte>>, k: nat)
    requires AllLines(frames) && k < |frames|
    ensures var n := |frames| - k - 1;
      && PrefixBytes(frames, n + 1) <= |Concat(frames)|
      && PreviousLine(Concat(frames)[..PrefixBytes(frames, n + 1)])
        == ReverseLine(Body(frames[n]), PrefixBytes(frames, n))
  {
    var n := |frames| - k - 1;
    var newest := frames[..n + 1];
    assert frames == newest + frames[n + 1..];
    ConcatAppend(newest, frames[n + 1..]);
    PreviousOfFrames(newest);
    assert newest[..|newest| - 1] == frames[..n];
    PrefixIsConcat(frames, n);
    PrefixIsConcat(frames, n + 1);
    assert Concat(frames)[..PrefixBytes(frames, n + 1)] == Concat(newest);
  }

  lemma {:induction false} ReversedCons<T>(x: T, rest: seq<T>)
    ensures Reversed([x] + rest) == Reversed(rest) + [x]
  {
    assert ([x] + rest)[1..] == rest;
  }

  // One frame more reads if and only if it is readable and its number precedes the next one.
  lemma {:induction false} ReadsOneMore<T>(frames: seq<seq<byte>>, codec: Codec<T>, k: nat)
    requires k < |frames| && SuffixReads(frames, codec, k)
    ensures var n := |frames| - k - 1;
      SuffixReads(frames, codec, k + 1) <==>
      && Readable(frames[n], codec)
      && (k > 0 ==> Readable(frames[n + 1], codec) && Number(frames[n + 1], codec) == Number(frames[n], codec) + 1)
  {
    var n := |frames| - k - 1;
    if SuffixReads(frames, codec, k + 1) && k > 0 {
      assert Follows(frames, codec, n + 1);
    }
  }

  lemma {:induction false} ItemsOfOneMore<T>(frames: seq<seq<byte>>, codec: Codec<T>, k: nat)
    requires k < |frames| && SuffixReads(frames, codec, k) && SuffixReads(frames, codec, k + 1)
    ensures var n := |frames| - k - 1;
      Reversed(Items(frames, codec, k + 1)) == Reversed(Items(frames, codec, k)) + [Item(frames[n], codec)]
  {
    var n := |frames| - k - 1;
    assert Items(frames, codec, k + 1) == [Item(frames[n], codec)] + Items(frames, codec, k);
    ReversedCons(Item(frames[n], codec), Items(frames, codec, k));
  }

  // What taking a line does, when its frame is readable and when it is not.
  lemma {:induction false} TakeFrame<T>(s: Scan<T>, frame: seq<byte>, start: nat, codec: Codec<T>)
    requires frame != []
    ensures TakeLine(s, Body(frame), start, codec) ==
            if Readable(frame, codec) && (s.oldest.Some? ==> s.oldest.value == Number(frame, codec) + 1) then
              Ok(Scan(start, s.items + [Item(frame, codec)], s.retainedBytes + |frame|,
                      Some(Number(frame, codec)), start))
            else Err(ReadError(frame, codec))
  {
  }

  lemma {:induction false} TakeNext<T>(frames: seq<seq<byte>>, codec: Codec<T>, k: nat)
    requires k < |frames| && frames[|frames| - k - 1] != [] && SuffixReads(frames, codec, k)
    ensures var n := |frames| - k - 1;
      TakeLine(Scanned(frames, codec, k), Body(frames[n]), PrefixBytes(frames, n), codec)
      == if SuffixReads(frames, codec, k + 1) then Ok(Scanned(frames, codec, k + 1))
         else Err(ReadError(frames[n], codec))
  {
    var n := |frames| - k - 1;
    TakeFrame(Scanned(frames, codec, k), frames[n], PrefixBytes(frames, n), codec);
    ReadsOneMore(frames, codec, k);
    assert SuffixBytes(frames, k + 1) == SuffixBytes(frames, k) + |frames[n]|;
    if SuffixReads(frames, codec, k + 1) {
      ItemsOfOneMore(frames, codec, k);
    }
  }

  // One iteration of the scan.
  lemma {:induction false} ScanStep<T>(frames: seq<seq<byte>>, codec: Codec<T>, budget: Budget, j: nat)
    requires AllLines(frames) && j < |frames| && SuffixReads(frames, codec, j)
    ensures PrefixBytes(frames, |frames| - j) <= |Concat(frames)|
    ensures PrefixBytes(frames, |frames| - j - 1) <= |Concat(frames)|
    ensures var s, n, file := Scanned(frames, codec, j), |frames| - j - 1, Concat(frames);
      ScanTail(file, budget, codec, s) ==
        if j >= budget.maxItems || SuffixBytes(frames, j) >= budget.maxBytes then Ok(s)
        else if j > 0 && SuffixBytes(frames, j + 1) > budget.maxBytes then Ok(s.(offset := PrefixBytes(frames, n)))
        else if SuffixReads(frames, codec, j + 1)
        then ScanTail(file, budget, codec, Scanned(frames, codec, j + 1))
        else Err(ReadError(frames[n], codec))
  {
    LineBeforeSuffix(frames, j);
    ScanUnfolds(Concat(frames), budget, codec, Scanned(frames, codec, j));
    TakeNext(frames, codec, j);
  }

  // Before the longest suffix is complete neither budget stops the scan.
  lemma {:induction false} BudgetAllowsMore(frames: seq<seq<byte>>, budget: Budget, j: nat, k: nat)
    requires AllLines(frames) && IsLongestSuffix(frames, budget, k) && j < k && budget.maxBytes > 0
    ensures j < budget.maxItems && SuffixBytes(frames, j) < budget.maxBytes
    ensures j > 0 ==> SuffixBytes(frames, j + 1) <= budget.maxBytes
  {
    SuffixGrows(frames, j, j + 1);
    SuffixGrows(frames, j + 1, k);
  }

  lemma {:induction false} ScanContinues<T>(frames: seq<seq<byte>>, codec: Codec<T>, budget: Budget, j: nat, k: nat)
    requires AllLines(frames) && IsLongestSuffix(frames, budget, k) && j < k && SuffixReads(frames, codec, j)
    requires budget.maxBytes > 0
    ensures PrefixBytes(frames, |frames| - j) <= |Concat(frames)|
    ensures PrefixBytes(frames, |frames| - j - 1) <= |Concat(frames)|
    ensures ScanTail(Concat(frames), budget, codec, Scanned(frames, codec, j)) ==
      if SuffixReads(frames, codec, j + 1)
      then ScanTail(Concat(frames), budget, codec, Scanned(frames, codec, j + 1))
      else Err(ReadError(frames[|frames| - j - 1], codec))
  {
    BudgetAllowsMore(frames, budget, j, k);
    ScanStep(frames, codec, budget, j);
  }

  // While the frames read, the scan goes through them.
  lemma {:induction false} ScanGoesOn<T>(frames: seq<seq<byte>>, codec: Codec<T>, budget: Budget, j: nat, i: nat,
                                         k: nat)
    requires AllLines(frames) && IsLongestSuffix(frames, budget, k) && budget.maxBytes > 0
    requires j <= i <= k && SuffixReads(frames, codec, j) && SuffixReads(frames, codec, i)
    requires PrefixBytes(frames, |frames| - j) <= |Concat(frames)|
    ensures PrefixBytes(frames, |frames| - i) <= |Concat(frames)|
    ensures ScanTail(Concat(frames), budget, codec, Scanned(frames, codec, j))
         == ScanTail(Concat(frames), budget, codec, Scanned(frames, codec, i))
    decreases i - j
  {
    if j < i {
      ReadsBelow(frames, codec, j + 1, i);
      ScanContinues(frames, codec, budget, j, k);
      ScanGoesOn(frames, codec, budget, j + 1, i, k);
    }
  }

  lemma {:induction false} ReadsBelow<T>(frames: seq<seq<byte>>, codec: Codec<T>, j: nat, k: nat)
    requires j <= k <= |frames|
    ensures SuffixReads(frames, codec, k) ==> SuffixReads(frames, codec, j)
  {
  }

  // How a scan ends: with the longest suffix, or one line too late; or at the newest line it cannot take.
  ghost predicate ScanEnds<T>(scan: Result<Scan<T>, JournalError>, frames: seq<seq<byte>>, codec: Codec<T>,
                              budget: Budget, k: nat)
    requires k <= |frames|
  {
    && (SuffixReads(frames, codec, k) ==> scan == Ok(ScanEnd(frames, codec, budget, k)))
    && (!SuffixReads(frames, codec, k) ==> scan.Err?)
    && forall i: nat :: i < k && SuffixReads(frames, codec, i) && !SuffixReads(frames, codec, i + 1)
                        ==> scan == Err(ReadError(frames[|frames| - i - 1], codec))
  }

  lemma {:induction false} EndsAtUnreadable<T>(frames: seq<seq<byte>>, codec: Codec<T>, budget: Budget, j: nat, k: nat)
    requires j < k <= |frames| && SuffixReads(frames, codec, j) && !SuffixReads(frames, codec, j + 1)
    ensures ScanEnds(Err(ReadError(frames[|frames| - j - 1], codec)), frames, codec, budget, k)
  {
    ReadsBelow(frames, codec, j + 1, k);
    forall i: nat | i < k && SuffixReads(frames, codec, i) && !SuffixReads(frames, codec, i + 1)
      ensures i == j
    {
      if i < j {
        ReadsBelow(frames, codec, i + 1, j);
      } else if j < i {
        ReadsBelow(frames, codec, j + 1, i);
      }
    }
  }

  lemma {:induction false} EndsWithSuffix<T>(frames: seq<seq<byte>>, codec: Codec<T>, budget: Budget, k: nat)
    requires k <= |frames| && SuffixReads(frames, codec, k)
    ensures ScanEnds(Ok(ScanEnd(frames, codec, budget, k)), frames, codec, budget, k)
  {
    forall i: nat | i <= k ensures SuffixReads(frames, codec, i) {
      ReadsBelow(frames, codec, i, k);
    }
  }

  lemma {:induction false} ScanStops<T>(frames: seq<seq<byte>>, codec: Codec<T>, budget: Budget, k: nat)
    requires AllLines(frames) && IsLongestSuffix(frames, budget, k) && SuffixReads(frames, codec, k)
    requires PrefixBytes(frames, |frames| - k) <= |Concat(frames)|
    ensures ScanTail(Concat(frames), budget, codec, Scanned(frames, codec, k))
      == Ok(ScanEnd(frames, codec, budget, k))
  {
    if k == |frames| {
      ScanUnfolds(Concat(frames), budget, codec, Scanned(frames, codec, k));
      assert Concat(frames)[..0] == [];
    } else {
      ScanStep(frames, codec, budget, k);
      if ReadsOneTooMany(frames, budget, k) {
        assert SuffixBytes(frames, k + 1) > budget.maxBytes;
      }
    }
  }

  // Whether the scan reads one line that it then leaves out for its size.
  predicate ReadsOneTooMany(frames: seq<seq<byte>>, budget: Budget, k: nat)
    requires k <= |frames|
  {
    k < |frames| && k < budget.maxItems && SuffixBytes(frames, k) < budget.maxBytes
  }

  ghost function ScanEnd<T>(frames: seq<seq<byte>>, codec: Codec<T>, budget: Budget, k: nat): Scan<T>
    requires k <= |frames| && SuffixReads(frames, codec, k)
  {
    Scanned(frames, codec, k).(offset := EndOffset(frames, budget, k))
  }

  // How many frames it has read, and where that is.
  function FramesRead(frames: seq<seq<byte>>, budget: Budget, k: nat): (n: nat)
    requires k <= |frames|
    ensures n <= |frames|
  {
    if ReadsOneTooMany(frames, budget, k) then k + 1 else k
  }

  function EndOffset(frames: seq<seq<byte>>, budget: Budget, k: nat): nat
    requires k <= |frames|
  {
    PrefixBytes(frames, |frames| - FramesRead(frames, budget, k))
  }

  lemma {:induction false} SuffixIsRest(frames: seq<seq<byte>>, k: nat)
    requires k <= |frames|
    ensures PrefixBytes(frames, |frames| - k) + SuffixBytes(frames, k) == |Concat(frames)|
  {
    PrefixAndSuffix(frames, k);
    PrefixIsConcat(frames, |frames|);
    assert frames[..|frames|] == frames;
  }

  lemma {:induction false} PrefixIsPositive(frames: seq<seq<byte>>, n: nat)
    requires AllLines(frames) && n <= |frames|
    ensures PrefixBytes(frames, n) == 0 <==> n == 0
  {
  }

  // The scan goes back to the start of the log: to take its first record, or to find that it does not fit.
  predicate ReachesStart(frames: seq<seq<byte>>, budget: Budget, k: nat)
    requires k <= |frames|
  {
    FramesRead(frames, budget, k) == |frames|
  }

  // What the page of the last k frames holds.
  ghost predicate IsPage<T>(page: Page<T>, frames: seq<seq<byte>>, codec: Codec<T>, budget: Budget, k: nat)
    requires k <= |frames| && SuffixReads(frames, codec, k)
  {
    var n := |frames|;
    var oldest := if k == 0 then 0 else Number(frames[n - k], codec);
    && page.items == Items(frames, codec, k)
    && page.omittedItems == (if oldest == 0 then 0 else oldest - 1)
    && page.retainedBytes == SuffixBytes(frames, k)
    && page.continuation == (if oldest > 1 then Some(Cursor(oldest, PrefixBytes(frames, n - k))) else None)
    && page.scannedBytes == SuffixBytes(frames, FramesRead(frames, budget, k))
  }

  lemma {:induction false} ReversedTwice<T>(s: seq<T>)
    ensures Reversed(Reversed(s)) == s
  {
  }

  // The page made of the end of a scan.
  lemma {:induction false} PageOfScanEnd<T>(frames: seq<seq<byte>>, codec: Codec<T>, budget: Budget, k: nat,
                                            file: seq<byte>)
    requires AllLines(frames) && k <= |frames| && SuffixReads(frames, codec, k)
    requires ScanEnd(frames, codec, budget, k).offset <= |file|
    requires |file| == |Concat(frames)|
    ensures var n, page := |frames|, PageOf(file, ScanEnd(frames, codec, budget, k));
      if k > 0 && ReachesStart(frames, budget, k) && Number(frames[n - k], codec) != 1 then page == Err(Corrupt)
      else page.Ok? && IsPage(page.value, frames, codec, budget, k)
  {
    var oldest := if k == 0 then None else Some(Number(frames[|frames| - k], codec));
    PrefixOffset(frames, FramesRead(frames, budget, k));
    PageOfParts(file, Items(frames, codec, k), SuffixBytes(frames, k), oldest, EndOffset(frames, budget, k),
                PrefixBytes(frames, |frames| - k));
  }

  lemma {:induction false} PageOfParts<T>(file: seq<byte>, items: seq<T>, retainedBytes: nat, oldest: Option<nat>,
                                          offset: nat, oldestOffset: nat)
    requires offset <= |file|
    ensures var page := PageOf(file, Scan(offset, Reversed(items), retainedBytes, oldest, oldestOffset));
      var first := if oldest.Some? then oldest.value else 0;
      if offset == 0 && oldest.Some? && first != 1 then page == Err(Corrupt)
      else page == Ok(Page(items, if first == 0 then 0 else first - 1,
                           if first > 1 then Some(Cursor(first, oldestOffset)) else None,
                           retainedBytes, |file| - offset))
  {
    ReversedTwice(items);
  }

  lemma {:induction false} PrefixOffset(frames: seq<seq<byte>>, j: nat)
    requires AllLines(frames) && j <= |frames|
    ensures PrefixBytes(frames, |frames| - j) == 0 <==> j == |frames|
    ensures |Concat(frames)| - PrefixBytes(frames, |frames| - j) == SuffixBytes(frames, j)
  {
    PrefixIsPositive(frames, |frames| - j);
    SuffixIsRest(frames, j);
  }

  lemma {:induction false} ScanWholeLog<T>(frames: seq<seq<byte>>, codec: Codec<T>, budget: Budget, k: nat)
    requires AllLines(frames) && IsLongestSuffix(frames, budget, k)
    requires budget.maxItems > 0 && budget.maxBytes > 0
    ensures var file := Concat(frames);
      var scan := ScanTail(file, budget, codec, Scan(|file|, [], 0, None, |file|));
      && ScanEnds(scan, frames, codec, budget, k)
      && (SuffixReads(frames, codec, k) ==> ScanEnd(frames, codec, budget, k).offset <= |file|)
  {
    var file := Concat(frames);
    SuffixIsRest(frames, 0);
    assert Scanned(frames, codec, 0) == Scan(|file|, [], 0, None, |file|);
    if SuffixReads(frames, codec, k) {
      ScanGoesOn(frames, codec, budget, 0, k, k);
      ScanStops(frames, codec, budget, k);
      EndsWithSuffix(frames, codec, budget, k);
      ScanStaysInside(file, budget, codec, Scanned(frames, codec, 0));
    } else {
      var i := NewestUnreadable(frames, codec, k);
      ScanGoesOn(frames, codec, budget, 0, i, k);
      ScanContinues(frames, codec, budget, i, k);
      EndsAtUnreadable(frames, codec, budget, i, k);
    }
  }

  // The answer for a log whose longest suffix within the budget has k frames.
  ghost predicate Answers<T>(page: Result<Page<T>, JournalError>, frames: seq<seq<byte>>, codec: Codec<T>,
                             budget: Budget, k: nat)
    requires AllLines(frames) && k <= |frames|
  {
    var n := |frames|;
    && (page.Ok? <==>
        && SuffixReads(frames, codec, k)
        && (k > 0 && ReachesStart(frames, budget, k) ==> Number(frames[n - k], codec) == 1))
    && (page.Ok? ==> IsPage(page.value, frames, codec, budget, k))
    && (page.Err? && SuffixReads(frames, codec, k) ==> page.error == Corrupt)
    && forall i: nat :: i < k && SuffixReads(frames, codec, i) && !SuffixReads(frames, codec, i + 1)
                        ==> page == Err(ReadError(frames[n - i - 1], codec))
  }

  /** The tail page of any log of lines, whatever its records say: a page comes back if and only if all the
      records of the longest suffix within the budget decode, the numbers of neighbours grow by exactly one, and
      a scan that reaches the start of the log found number 1 last. The page then holds those records and
      counts from their numbers; otherwise the newest line that cannot be taken names the error. */
  lemma {:induction false} TailPageOfAnyLog<T>(frames: seq<seq<byte>>, codec: Codec<T>, budget: Budget, k: nat)
    requires AllLines(frames) && IsLongestSuffix(frames, budget, k)
    requires budget.maxItems > 0 && budget.maxBytes > 0
    ensures Answers(TailPage(Concat(frames), budget, codec), frames, codec, budget, k)
  {
    var file := Concat(frames);
    var scan := ScanTail(file, budget, codec, Scan(|file|, [], 0, None, |file|));
    ScanWholeLog(frames, codec, budget, k);
    AnswerOfScan(scan, frames, codec, budget, k);
  }

  lemma {:induction false} AnswerOfScan<T>(scan: Result<Scan<T>, JournalError>, frames: seq<seq<byte>>,
                                           codec: Codec<T>, budget: Budget, k: nat)
    requires AllLines(frames) && k <= |frames| && (frames != [] ==> k >= 1)
    requires ScanEnds(scan, frames, codec, budget, k)
    requires SuffixReads(frames, codec, k) ==> ScanEnd(frames, codec, budget, k).offset <= |Concat(frames)|
    ensures Answers(PageAfter(Concat(frames), scan), frames, codec, budget, k)
  {
    if SuffixReads(frames, codec, k) {
      PageOfScanEnd(frames, codec, budget, k, Concat(frames));
      forall i: nat | i <= k ensures SuffixReads(frames, codec, i) {
        ReadsBelow(frames, codec, i, k);
      }
    }
  }

  lemma {:induction false} NewestUnreadable<T>(frames: seq<seq<byte>>, codec: Codec<T>, k: nat) returns (i: nat)
    requires k <= |frames| && !SuffixReads(frames, codec, k)
    ensures i < k && SuffixReads(frames, codec, i) && !SuffixReads(frames, codec, i + 1)
    decreases k
  {
    if SuffixReads(frames, codec, k - 1) {
      i := k - 1;
    } else {
      i := NewestUnreadable(frames, codec, k - 1);
    }
  }

  /** Two neighbours within reach of the budget whose numbers do not follow each other, one record twice or a
      missing one, make the log corrupt, whatever else it holds. */
  lemma {:induction false} GapIsCorrupt<T>(frames: seq<seq<byte>>, codec: Codec<T>, budget: Budget, k: nat, i: nat)
    requires AllLines(frames) && IsLongestSuffix(frames, budget, k)
    requires budget.maxItems > 0 && budget.maxBytes > 0
    requires forall j :: |frames| - k <= j < |frames| ==> Readable(frames[j], codec)
    requires |frames| - k < i < |frames| && Number(frames[i], codec) != Number(frames[i - 1], codec) + 1
    ensures TailPage(Concat(frames), budget, codec) == Err(Corrupt)
  {
    assert !Follows(frames, codec, i);
    TailPageOfAnyLog(frames, codec, budget, k);
    GapAnswer(TailPage(Concat(frames), budget, codec), frames, codec, budget, k);
  }

  lemma {:induction false} GapAnswer<T>(page: Result<Page<T>, JournalError>, frames: seq<seq<byte>>, codec: Codec<T>,
                                        budget: Budget, k: nat)
    requires AllLines(frames) && k <= |frames| && Answers(page, frames, codec, budget, k)
    requires forall j :: |frames| - k <= j < |frames| ==> Readable(frames[j], codec)
    requires !SuffixReads(frames, codec, k)
    ensures page == Err(Corrupt)
  {
    var j := NewestUnreadable(frames, codec, k);
    assert page == Err(ReadError(frames[|frames| - j - 1], codec));
  }

  // ---------------------------------------------------------------- healthy logs

  // The records of a log numbered 1, 2, 3, ...
  ghost predicate Numbered<T>(frames: seq<seq<byte>>, items: seq<T>, codec: Codec<T>) {
    && AllLines(frames)
    && |items| == |frames|
    && forall i :: 0 <= i < |frames| ==>
      codec.decode(Body(frames[i])) == Ok(items[i]) && codec.sequence(items[i]) == Ok(i + 1)
  }

  // What the page of the last k records holds.
  ghost predicate IsPageOf<T>(page: Page<T>, frames: seq<seq<byte>>, items: seq<T>, budget: Budget, k: nat)
    requires |items| == |frames| && k <= |frames|
  {
    var n := |frames|;
    && page.items == items[n - k..]
    && page.omittedItems == n - k
    && page.retainedBytes == SuffixBytes(frames, k)
    && page.continuation == (if k < n then Some(Cursor(n - k + 1, PrefixBytes(frames, n - k))) else None)
    && page.scannedBytes == SuffixBytes(frames, FramesRead(frames, budget, k))
  }

  lemma {:induction false} NumberedReads<T>(frames: seq<seq<byte>>, items: seq<T>, codec: Codec<T>, k: nat)
    requires Numbered(frames, items, codec) && k <= |frames|
    ensures SuffixReads(frames, codec, k) && Items(frames, codec, k) == items[|frames| - k..]
    ensures k > 0 ==> Number(frames[|frames| - k], codec) == |frames| - k + 1
  {
  }

  /** The tail page of a healthy log is exactly its longest suffix within the budget, with every other
      record counted and the cursor at the oldest record returned; except that when the byte budget
      excludes the first record and nothing else, the log is reported as corrupt. */
  lemma {:induction false} TailPageOfHealthyLog<T>(frames: seq<seq<byte>>, items: seq<T>, codec: Codec<T>,
                                                   budget: Budget, k: nat)
    requires Numbered(frames, items, codec) && IsLongestSuffix(frames, budget, k)
    requires budget.maxItems > 0 && budget.maxBytes > 0
    ensures var page := TailPage(Concat(frames), budget, codec);
      && (OnlyFirstExcluded(frames, budget) ==> page == Err(Corrupt))
      && (!OnlyFirstExcluded(frames, budget) ==> page.Ok? && IsPageOf(page.value, frames, items, budget, k))
  {
    TailPageOfAnyLog(frames, codec, budget, k);
    HealthyAnswer(TailPage(Concat(frames), budget, codec), frames, items, codec, budget, k);
  }

  lemma {:induction false} HealthyAnswer<T>(page: Result<Page<T>, JournalError>, frames: seq<seq<byte>>,
                                            items: seq<T>, codec: Codec<T>, budget: Budget, k: nat)
    requires Numbered(frames, items, codec) && IsLongestSuffix(frames, budget, k)
    requires Answers(page, frames, codec, budget, k)
    ensures OnlyFirstExcluded(frames, budget) ==> page == Err(Corrupt)
    ensures !OnlyFirstExcluded(frames, budget) ==> page.Ok? && IsPageOf(page.value, frames, items, budget, k)
  {
    NumberedReads(frames, items, codec, k);
    LongestWhenOnlyFirstExcluded(frames, budget, k);
    assert OnlyFirstExcluded(frames, budget) <==> ReachesStart(frames, budget, k) && 0 < k < |frames|;
    if page.Ok? {
      HealthyPage(page.value, frames, items, codec, budget, k);
    }
  }

  lemma {:induction false} HealthyPage<T>(page: Page<T>, frames: seq<seq<byte>>, items: seq<T>, codec: Codec<T>,
                                         budget: Budget, k: nat)
    requires Numbered(frames, items, codec) && k <= |frames| && (frames != [] ==> k >= 1)
    requires SuffixReads(frames, codec, k) && IsPage(page, frames, codec, budget, k)
    ensures IsPageOf(page, frames, items, budget, k)
  {
    NumberedReads(frames, items, codec, k);
  }

  lemma {:induction false} LongestWhenOnlyFirstExcluded(frames: seq<seq<byte>>, budget: Budget, k: nat)
    requires AllLines(frames) && IsLongestSuffix(frames, budget, k)
    ensures OnlyFirstExcluded(frames, budget) <==>
      |frames| >= 2 && k == |frames| - 1 && k < budget.maxItems && SuffixBytes(frames, k) < budget.maxBytes
  {
    var n := |frames|;
    if OnlyFirstExcluded(frames, budget) && k < n - 1 {
      assert false;
    }
  }

  /** There is always exactly one longest suffix. */
  lemma {:induction false} LongestSuffixExists(frames: seq<seq<byte>>, budget: Budget, n: nat) returns (k: nat)
    requires AllLines(frames) && budget.maxItems > 0
    requires n <= |frames| && (frames != [] ==> n >= 1)
    requires forall j :: n < j <= |frames| && j <= budget.maxItems ==> SuffixBytes(frames, j) > budget.maxBytes
    ensures IsLongestSuffix(frames, budget, k)
    ensures forall other :: IsLongestSuffix(frames, budget, other) ==> other == k
    decreases n
  {
    if n <= 1 || (n <= budget.maxItems && SuffixBytes(frames, n) <= budget.maxBytes) {
      k := n;
    } else {
      k := LongestSuffixExists(frames, budget, n - 1);
    }
  }

  // Records of one digit, which is also their sequence number.
  function DigitCodec(): Codec<byte> {
    Codec(line => if |line| == 1 then Ok(line[0]) else Err(Corrupt),
          digit => if digit >= 0x30 then Ok(digit - 0x30) else Err(Corrupt))
  }

  lemma {:induction false} PageOfNumbered<T>(frames: seq<seq<byte>>, items: seq<T>, codec: Codec<T>, budget: Budget)
    requires Numbered(frames, items, codec) && budget.maxItems > 0 && budget.maxBytes > 0
    ensures TailPage(Concat(frames), budget, codec) == Err(Corrupt) <==> OnlyFirstExcluded(frames, budget)
  {
    var k := LongestSuffixExists(frames, budget, |frames|);
    TailPageOfHealthyLog(frames, items, codec, budget, k);
  }

  lemma {:induction false} TwoDigits(one: seq<byte>, two: seq<byte>)
    requires one == [0x31, NL] && two == [0x32, NL]
    ensures Numbered([one, two], [0x31, 0x32], DigitCodec())
    ensures Concat([one, two]) == one + two
    ensures SuffixBytes([one, two], 1) == 2 && SuffixBytes([one, two], 2) == 4
  {
    assert Body(one) == [0x31] && Body(two) == [0x32];
    assert [one, two][1..] == [two] && [one, two][0..] == [one, two];
    assert Concat([two]) == two + Concat([]) == two;
  }

  /** Two records and a budget for one and a half: a healthy log reported as corrupt, which it is not with room for
      both. */
  lemma {:induction false} HealthyLogReportedCorrupt(one: seq<byte>, two: seq<byte>, bytes: nat)
    requires one == [0x31, NL] && two == [0x32, NL] && bytes > 0
    ensures Numbered([one, two], [0x31, 0x32], DigitCodec())
    ensures TailPage(one + two, Budget(8, bytes), DigitCodec()) == Err(Corrupt) <==> bytes == 3
  {
    TwoDigits(one, two);
    PageOfNumbered([one, two], [0x31, 0x32], DigitCodec(), Budget(8, bytes));
  }
}
