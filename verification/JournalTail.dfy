// The budgeted tail page of crates/event-journal/src/read.rs, read backwards from the end of a log.
module JournalTail {
  import opened Wrappers
  import opened Bytes
  import opened JournalStorage
  import opened JournalLines
  import opened JournalReaders

  datatype Budget = Budget(maxItems: nat, maxBytes: nat)

  datatype Cursor = Cursor(beforeSequence: nat, byteOffset: nat)

  datatype Page<T> = Page(items: seq<T>, omittedItems: nat, continuation: Option<Cursor>,
                          retainedBytes: nat, scannedBytes: nat)

  // How the caller reads a line: its record, if the line is UTF-8 and decodes, and its sequence number.
  datatype Codec<!T> = Codec(decode: seq<byte> -> Result<T, JournalError>, sequence: T -> Result<nat, JournalError>)

  // ---------------------------------------------------------------- specification of the scan

  // Progress of a scan; items are kept newest first.
  datatype Scan<T> = Scan(offset: nat, items: seq<T>, retainedBytes: nat, oldest: Option<nat>, oldestOffset: nat)

  function Predecessor(n: nat): nat {
    if n == 0 then 0 else n - 1
  }

  function TakeLine<T>(s: Scan<T>, line: seq<byte>, start: nat, codec: Codec<T>): Result<Scan<T>, JournalError> {
    match codec.decode(line)
    case Err(e) => Err(e)
    case Ok(item) =>
      match codec.sequence(item)
      case Err(e) => Err(e)
      case Ok(current) =>
        if s.oldest.Some? && current + 1 != s.oldest.value then Err(Corrupt)
        else Ok(Scan(start, s.items + [item], s.retainedBytes + |line| + 1, Some(current), start))
  }

  function ScanTail<T>(file: seq<byte>, budget: Budget, codec: Codec<T>, s: Scan<T>): Result<Scan<T>, JournalError>
    requires s.offset <= |file|
    decreases s.offset, 2
  {
    ScanTailOnce(file, budget, codec, s)
  }

  // A step in between, so that proofs look into a scan only where they say so (ScanUnfolds).
  function ScanTailOnce<T>(file: seq<byte>, budget: Budget, codec: Codec<T>, s: Scan<T>)
      : Result<Scan<T>, JournalError>
    requires s.offset <= |file|
    decreases s.offset, 1
  {
    ScanTailHere(file, budget, codec, s)
  }

  function ScanTailHere<T>(file: seq<byte>, budget: Budget, codec: Codec<T>, s: Scan<T>)
      : Result<Scan<T>, JournalError>
    requires s.offset <= |file|
    decreases s.offset, 0
  {
    if |s.items| >= budget.maxItems || s.retainedBytes >= budget.maxBytes then Ok(s)
    else
      match PreviousLine(file[..s.offset])
      case AtStart => Ok(s.(offset := 0))
      case ReverseTooLong => Err(Corrupt)
      case ReverseLine(line, start) =>
        if line == [] then ScanTail(file, budget, codec, s.(offset := start))
        else if s.items != [] && s.retainedBytes + |line| + 1 > budget.maxBytes then Ok(s.(offset := start))
        else
          match TakeLine(s, line, start, codec)
          case Err(e) => Err(e)
          case Ok(s') => ScanTail(file, budget, codec, s')
  }

  function PageOf<T>(file: seq<byte>, s: Scan<T>): Result<Page<T>, JournalError>
    requires s.offset <= |file|
  {
    if s.offset == 0 && s.oldest.Some? && s.oldest.value != 1 then Err(Corrupt)
    else
      Ok(Page(Reversed(s.items),
              if s.oldest.Some? then Predecessor(s.oldest.value) else 0,
              if s.oldest.Some? && s.oldest.value > 1 then Some(Cursor(s.oldest.value, s.oldestOffset)) else None,
              s.retainedBytes,
              |file| - s.offset))
  }

  function TailPage<T>(file: seq<byte>, budget: Budget, codec: Codec<T>): Result<Page<T>, JournalError> {
    if budget.maxItems == 0 || budget.maxBytes == 0 then Err(InvalidInput)
    else PageAfter(file, ScanTail(file, budget, codec, Scan(|file|, [], 0, None, |file|)))
  }

  // The page made of what a scan ends with.
  function PageAfter<T>(file: seq<byte>, scan: Result<Scan<T>, JournalError>): Result<Page<T>, JournalError> {
    match scan
    case Err(e) => Err(e)
    case Ok(s) => if s.offset <= |file| then PageOf(file, s) else Err(Corrupt)
  }

  lemma ScanUnfolds<T>(file: seq<byte>, budget: Budget, codec: Codec<T>, s: Scan<T>)
    requires s.offset <= |file|
    ensures ScanTail(file, budget, codec, s) == ScanTailHere(file, budget, codec, s)
  {
    assert ScanTail(file, budget, codec, s) == ScanTailOnce(file, budget, codec, s);
  }

  lemma {:induction false} ScanStaysInside<T>(file: seq<byte>, budget: Budget, codec: Codec<T>, s: Scan<T>)
    requires s.offset <= |file|
    ensures var r := ScanTail(file, budget, codec, s); r.Ok? ==> r.value.offset <= |file|
    decreases s.offset
  {
    ScanUnfolds(file, budget, codec, s);
    if |s.items| < budget.maxItems && s.retainedBytes < budget.maxBytes {
      var line := PreviousLine(file[..s.offset]);
      if line.ReverseLine? {
        if line.bytes == [] {
          ScanStaysInside(file, budget, codec, s.(offset := line.start));
        } else if TakeLine(s, line.bytes, line.start, codec).Ok? {
          ScanStaysInside(file, budget, codec, TakeLine(s, line.bytes, line.start, codec).value);
        }
      }
    }
  }

  lemma TailPageOfScan<T>(file: seq<byte>, budget: Budget, codec: Codec<T>, s: Scan<T>)
    requires ScanTail(file, budget, codec, Scan(|file|, [], 0, None, |file|)) == Ok(s)
    requires s.offset <= |file| && budget.maxItems > 0 && budget.maxBytes > 0
    ensures TailPage(file, budget, codec) == PageOf(file, s)
  {
  }

  // ---------------------------------------------------------------- any file

  // The numbers of neighbouring records grow by exactly one.
  ghost predicate Consecutive<T>(items: seq<T>, codec: Codec<T>) {
    && (forall i :: 0 <= i < |items| ==> codec.sequence(items[i]).Ok?)
    && forall i :: 0 < i < |items| ==> codec.sequence(items[i]).value == codec.sequence(items[i - 1]).value + 1
  }

  // The same of a scan, whose records stand newest first.
  ghost predicate ScanIsConsecutive<T>(s: Scan<T>, codec: Codec<T>) {
    && (forall i :: 0 <= i < |s.items| ==> codec.sequence(s.items[i]).Ok?)
    && (forall i :: 0 < i < |s.items| ==>
      codec.sequence(s.items[i - 1]).value == codec.sequence(s.items[i]).value + 1)
    && s.oldest == if s.items == [] then None else Some(codec.sequence(s.items[|s.items| - 1]).value)
  }

  lemma TakeKeepsConsecutive<T>(s: Scan<T>, line: seq<byte>, start: nat, codec: Codec<T>)
    requires ScanIsConsecutive(s, codec) && TakeLine(s, line, start, codec).Ok?
    ensures var s' := TakeLine(s, line, start, codec).value;
      ScanIsConsecutive(s', codec) && |s'.items| == |s.items| + 1 && s'.offset == start
  {
  }

  ghost predicate KeepsPace<T>(s: Scan<T>, budget: Budget, codec: Codec<T>) {
    ScanIsConsecutive(s, codec) && |s.items| <= budget.maxItems
  }

  ghost predicate EndsInPace<T>(r: Result<Scan<T>, JournalError>, budget: Budget, codec: Codec<T>) {
    r.Ok? ==> KeepsPace(r.value, budget, codec)
  }

  lemma {:induction false} ScanKeepsConsecutive<T>(file: seq<byte>, budget: Budget, codec: Codec<T>, s: Scan<T>)
    requires s.offset <= |file| && KeepsPace(s, budget, codec)
    ensures EndsInPace(ScanTail(file, budget, codec, s), budget, codec)
    decreases s.offset, 1
  {
    ScanUnfolds(file, budget, codec, s);
    var line := PreviousLine(file[..s.offset]);
    if line.ReverseLine? && |s.items| < budget.maxItems {
      if line.bytes == [] {
        ScanKeepsConsecutive(file, budget, codec, s.(offset := line.start));
      } else if TakeLine(s, line.bytes, line.start, codec).Ok? {
        TakeKeepsPace(file, budget, codec, s, line.bytes, line.start);
      }
    }
  }

  lemma {:induction false} TakeKeepsPace<T>(file: seq<byte>, budget: Budget, codec: Codec<T>, s: Scan<T>,
                                           line: seq<byte>, start: nat)
    requires start < s.offset <= |file| && KeepsPace(s, budget, codec) && |s.items| < budget.maxItems
    requires TakeLine(s, line, start, codec).Ok?
    ensures TakeLine(s, line, start, codec).value.offset <= |file|
    ensures EndsInPace(ScanTail(file, budget, codec, TakeLine(s, line, start, codec).value), budget, codec)
    decreases s.offset, 0
  {
    TakeKeepsConsecutive(s, line, start, codec);
    ScanKeepsConsecutive(file, budget, codec, TakeLine(s, line, start, codec).value);
  }

  /** Whatever bytes a file holds, no page shows two neighbours whose numbers do not follow each other, more
      records than asked for, or a count of omitted records that does not precede its first one. */
  lemma EveryPageIsConsecutive<T>(file: seq<byte>, budget: Budget, codec: Codec<T>)
    requires TailPage(file, budget, codec).Ok?
    ensures Consecutive(TailPage(file, budget, codec).value.items, codec)
    ensures |TailPage(file, budget, codec).value.items| <= budget.maxItems
    ensures CountsFromItems(TailPage(file, budget, codec).value, codec)
  {
    var start: Scan<T> := Scan(|file|, [], 0, None, |file|);
    ScanKeepsConsecutive(file, budget, codec, start);
    var scan := ScanTail(file, budget, codec, start);
    assert scan.Ok? && TailPage(file, budget, codec) == PageOf(file, scan.value);
    ConsecutivePage(file, scan.value, codec);
  }

  // What a page says of the records before it, from the number of its first one.
  predicate CountsFromItems<T>(page: Page<T>, codec: Codec<T>)
    requires page.items != [] ==> codec.sequence(page.items[0]).Ok?
  {
    var first := if page.items == [] then 0 else codec.sequence(page.items[0]).value;
    && page.omittedItems == (if first == 0 then 0 else first - 1)
    && (page.continuation.Some? <==> first > 1)
    && (page.continuation.Some? ==> page.continuation.value.beforeSequence == first)
  }

  lemma ConsecutivePage<T>(file: seq<byte>, s: Scan<T>, codec: Codec<T>)
    requires s.offset <= |file| && ScanIsConsecutive(s, codec) && PageOf(file, s).Ok?
    ensures var page := PageOf(file, s).value;
      |page.items| == |s.items| && Consecutive(page.items, codec) && CountsFromItems(page, codec)
  {
    var items := PageOf(file, s).value.items;
    forall i | 0 < i < |items|
      ensures codec.sequence(items[i]).value == codec.sequence(items[i - 1]).value + 1
    {
      var j := |items| - i;
      assert items[i] == s.items[j - 1] && items[i - 1] == s.items[j];
    }
  }

  // ---------------------------------------------------------------- the reader

  // Decodes one line and checks that its sequence number precedes the oldest one read so far.
  method DecodeNext<T>(s: Scan<T>, line: seq<byte>, start: nat, codec: Codec<T>)
      returns (r: Result<Scan<T>, JournalError>)
    ensures r == TakeLine(s, line, start, codec)
  {
    var item := codec.decode(line);
    if item.Err? {
      return Err(item.error);
    }
    var current := codec.sequence(item.value);
    if current.Err? {
      return Err(current.error);
    }
    if s.oldest.Some? && current.value + 1 != s.oldest.value {
      return Err(Corrupt);
    }
    return Ok(Scan(start, s.items + [item.value], s.retainedBytes + (|line| + 1), Some(current.value), start));
  }

  // Reads lines backwards until a budget is used up, a line no longer fits, or the log starts.
  method ReadBackwards<T>(file: seq<byte>, budget: Budget, codec: Codec<T>, chunkBytes: nat)
    returns (r: Result<Scan<T>, JournalError>)
    requires chunkBytes > 0
    ensures r == ScanTail(file, budget, codec, Scan(|file|, [], 0, None, |file|))
    ensures r.Ok? ==> r.value.offset <= |file|
  {
    var s: Scan<T> := Scan(|file|, [], 0, None, |file|);
    ghost var whole := ScanTail(file, budget, codec, s);
    while |s.items| < budget.maxItems && s.retainedBytes < budget.maxBytes
      invariant s.offset <= |file|
      invariant whole == ScanTail(file, budget, codec, s)
      decreases s.offset
    {
      ScanUnfolds(file, budget, codec, s);
      var line, moved := ReadPreviousLine(file, s.offset, chunkBytes);
      if line.ReverseTooLong? {
        return Err(Corrupt);
      }
      if line.AtStart? {
        return Ok(s.(offset := moved));
      }
      if line.bytes == [] {
        s := s.(offset := moved);
        continue;
      }
      var frameBytes := |line.bytes| + 1;
      if s.items != [] && s.retainedBytes + frameBytes > budget.maxBytes {
        return Ok(s.(offset := moved));
      }
      var next := DecodeNext(s, line.bytes, line.start, codec);
      if next.Err? {
        return next;
      }
      s := next.value;
    }
    ScanUnfolds(file, budget, codec, s);
    return Ok(s);
  }

  method ReadTail<T>(file: seq<byte>, budget: Budget, codec: Codec<T>, chunkBytes: nat)
    returns (r: Result<Page<T>, JournalError>)
    requires chunkBytes > 0
    ensures r == TailPage(file, budget, codec)
    ensures budget.maxItems == 0 || budget.maxBytes == 0 ==> r == Err(InvalidInput)
    ensures r.Ok? ==> Consecutive(r.value.items, codec) && |r.value.items| <= budget.maxItems
  {
    if budget.maxItems == 0 || budget.maxBytes == 0 {
      return Err(InvalidInput);
    }
    var scan := ReadBackwards(file, budget, codec, chunkBytes);
    if scan.Err? {
      return Err(scan.error);
    }
    r := MakePage(file, scan.value);
    if r.Ok? {
      EveryPageIsConsecutive(file, budget, codec);
    }
  }

  // Checks that the records reach back to the first one, and turns them into a page, oldest first.
  method MakePage<T>(file: seq<byte>, s: Scan<T>) returns (r: Result<Page<T>, JournalError>)
    requires s.offset <= |file|
    ensures r == PageOf(file, s)
  {
    if s.offset == 0 && s.oldest.Some? && s.oldest.value != 1 {
      return Err(Corrupt);
    }
    var omitted := if s.oldest.Some? then Predecessor(s.oldest.value) else 0;
    var continuation :=
      if s.oldest.Some? && s.oldest.value > 1 then Some(Cursor(s.oldest.value, s.oldestOffset)) else None;
    return Ok(Page(Reversed(s.items), omitted, continuation, s.retainedBytes, |file| - s.offset));
  }
}
