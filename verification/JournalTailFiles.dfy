// The tail page of any file, blank lines and an unterminated last line included
// (crates/event-journal/src/read.rs:61-139).
module JournalTailFiles {
  import opened Wrappers
  import opened Bytes
  import opened JournalLines
  import opened JournalTail

  // The bytes of lines together with their newlines.
  function LineBytes(lines: seq<seq<byte>>): nat {
    if lines == [] then 0 else LineBytes(lines[..|lines| - 1]) + |lines[|lines| - 1]| + 1
  }

  // The scan has taken the first of these lines, newest first.
  ghost predicate Shows<T>(s: Scan<T>, lines: seq<seq<byte>>, codec: Codec<T>) {
    && |s.items| <= |lines|
    && (forall i :: 0 <= i < |s.items| ==> codec.decode(lines[i]) == Ok(s.items[i]))
    && s.retainedBytes == LineBytes(lines[..|s.items|])
  }

  // There is no further line, or the budget leaves no room for it.
  predicate Exhausted(taken: nat, retainedBytes: nat, lines: seq<seq<byte>>, budget: Budget)
    requires taken <= |lines|
  {
    || taken == |lines| || taken >= budget.maxItems || retainedBytes >= budget.maxBytes
    || (taken > 0 && retainedBytes + |lines[taken]| + 1 > budget.maxBytes)
  }

  // The lines before the offset of a scan, newest first.
  ghost predicate LinesAhead(file: seq<byte>, offset: nat, ahead: seq<seq<byte>>)
    requires offset <= |file|
  {
    ReverseLines(file[..offset]).Ok? && NonEmpty(ReverseLines(file[..offset]).value) == ahead
  }

  lemma AheadOfLine(file: seq<byte>, offset: nat, ahead: seq<seq<byte>>)
    requires offset <= |file| && LinesAhead(file, offset, ahead)
    ensures match PreviousLine(file[..offset])
      case AtStart => ahead == []
      case ReverseTooLong => false
      case ReverseLine(line, start) =>
        && start < offset
        && (if line == [] then LinesAhead(file, start, ahead)
            else ahead != [] && ahead[0] == line && LinesAhead(file, start, ahead[1..]))
  {
    var r := PreviousLine(file[..offset]);
    if r.ReverseLine? {
      assert file[..offset][..r.start] == file[..r.start];
      var older := ReverseLines(file[..r.start]).value;
      assert ([r.bytes] + older)[1..] == older;
    }
  }

  lemma TakeShows<T>(s: Scan<T>, start: nat, codec: Codec<T>, taken: seq<seq<byte>>, ahead: seq<seq<byte>>)
    requires ahead != [] && Shows(s, taken + ahead, codec) && |s.items| == |taken|
    requires TakeLine(s, ahead[0], start, codec).Ok?
    ensures var s' := TakeLine(s, ahead[0], start, codec).value;
      Shows(s', (taken + [ahead[0]]) + ahead[1..], codec) && |s'.items| == |taken + [ahead[0]]|
    ensures (taken + [ahead[0]]) + ahead[1..] == taken + ahead
  {
    var more := taken + [ahead[0]];
    assert more + ahead[1..] == taken + ahead;
    assert (taken + ahead)[..|taken|] == taken && (taken + ahead)[..|more|] == more;
    assert more[..|more| - 1] == taken;
  }

  lemma {:induction false} ScanShows<T>(file: seq<byte>, budget: Budget, codec: Codec<T>, s: Scan<T>,
                                       taken: seq<seq<byte>>, ahead: seq<seq<byte>>)
    requires s.offset <= |file| && LinesAhead(file, s.offset, ahead)
    requires Shows(s, taken + ahead, codec) && |s.items| == |taken|
    ensures var r := ScanTail(file, budget, codec, s);
      r.Ok? ==>
        && Shows(r.value, taken + ahead, codec)
        && Exhausted(|r.value.items|, r.value.retainedBytes, taken + ahead, budget)
    decreases s.offset
  {
    ScanUnfolds(file, budget, codec, s);
    if |s.items| < budget.maxItems && s.retainedBytes < budget.maxBytes {
      var line := PreviousLine(file[..s.offset]);
      AheadOfLine(file, s.offset, ahead);
      if line.ReverseLine? {
        if line.bytes == [] {
          ScanShows(file, budget, codec, s.(offset := line.start), taken, ahead);
        } else if s.items != [] && s.retainedBytes + |line.bytes| + 1 > budget.maxBytes {
          assert (taken + ahead)[|taken|] == line.bytes;
        } else if TakeLine(s, line.bytes, line.start, codec).Ok? {
          TakeShows(s, line.start, codec, taken, ahead);
          ScanShows(file, budget, codec, TakeLine(s, line.bytes, line.start, codec).value,
                    taken + [line.bytes], ahead[1..]);
        }
      }
    }
  }

  /** Whatever bytes a file holds, blank lines and an unterminated last line among them: a page shows the last
      lines that are not empty, each decoded and in order, and leaves one out only where the budget ends. */
  lemma PageShowsLastLines<T>(file: seq<byte>, budget: Budget, codec: Codec<T>)
    requires ReverseLines(file).Ok? && TailPage(file, budget, codec).Ok?
    ensures var lines, page := NonEmpty(ReverseLines(file).value), TailPage(file, budget, codec).value;
      var m := |page.items|;
      && m <= |lines| && Exhausted(m, page.retainedBytes, lines, budget)
      && page.retainedBytes == LineBytes(lines[..m])
      && forall i :: 0 <= i < m ==> codec.decode(lines[i]) == Ok(page.items[m - 1 - i])
  {
    var lines := NonEmpty(ReverseLines(file).value);
    assert file[..|file|] == file;
    var s := ShownScan(file, lines, budget, codec);
    TailPageOfScan(file, budget, codec, s);
  }

  lemma ShownScan<T>(file: seq<byte>, lines: seq<seq<byte>>, budget: Budget, codec: Codec<T>) returns (s: Scan<T>)
    requires LinesAhead(file, |file|, lines) && TailPage(file, budget, codec).Ok?
    ensures ScanTail(file, budget, codec, Scan(|file|, [], 0, None, |file|)) == Ok(s) && s.offset <= |file|
    ensures Shows(s, lines, codec) && Exhausted(|s.items|, s.retainedBytes, lines, budget)
  {
    var start: Scan<T> := Scan(|file|, [], 0, None, |file|);
    assert [] + lines == lines;
    assert Shows(start, lines, codec);
    ScanShows(file, budget, codec, start, [], lines);
    s := ScanTail(file, budget, codec, start).value;
  }

  lemma {:induction false} LineBytesAppend(a: seq<seq<byte>>, b: seq<seq<byte>>)
    ensures LineBytes(a + b) >= LineBytes(a) + |b|
    decreases |b|
  {
    if b == [] {
      assert a + b == a;
    } else {
      assert (a + b)[..|a + b| - 1] == a + b[..|b| - 1];
      LineBytesAppend(a, b[..|b| - 1]);
    }
  }

  // Lines, newest first, that decode to records numbered down to 1.
  ghost predicate NumberedDown<T>(lines: seq<seq<byte>>, codec: Codec<T>) {
    forall i :: 0 <= i < |lines| ==>
      codec.decode(lines[i]).Ok? && codec.sequence(codec.decode(lines[i]).value) == Ok(|lines| - i)
  }

  // The scan that has taken the first lines of a file whose lines all fit the budget.
  ghost predicate TakesAll<T>(s: Scan<T>, taken: nat, lines: seq<seq<byte>>, budget: Budget, codec: Codec<T>) {
    && NumberedDown(lines, codec) && |lines| <= budget.maxItems && LineBytes(lines) <= budget.maxBytes
    && Shows(s, lines, codec) && |s.items| == taken
    && s.oldest == if taken == 0 then None else Some(|lines| - taken + 1)
  }

  lemma RoomForNext<T>(s: Scan<T>, taken: seq<seq<byte>>, ahead: seq<seq<byte>>, start: nat, budget: Budget,
                       codec: Codec<T>)
    requires TakesAll(s, |taken|, taken + ahead, budget, codec) && ahead != []
    ensures |s.items| < budget.maxItems && s.retainedBytes + |ahead[0]| + 1 <= budget.maxBytes
    ensures TakeLine(s, ahead[0], start, codec).Ok?
    ensures TakesAll(TakeLine(s, ahead[0], start, codec).value, |taken + [ahead[0]]|,
                     (taken + [ahead[0]]) + ahead[1..], budget, codec)
  {
    var lines, more := taken + ahead, taken + [ahead[0]];
    assert lines[|taken|] == ahead[0];
    TakeShows(s, start, codec, taken, ahead);
    LineBytesAppend(more, ahead[1..]);
    assert lines[..|taken|] == taken && more[..|taken|] == taken;
  }

  // Every line ahead is taken as well.
  ghost predicate ScanEndsWithAll<T>(file: seq<byte>, budget: Budget, codec: Codec<T>, s: Scan<T>,
                                     lines: seq<seq<byte>>)
    requires s.offset <= |file|
  {
    var r := ScanTail(file, budget, codec, s);
    r.Ok? && TakesAll(r.value, |lines|, lines, budget, codec)
  }

  lemma {:induction false} ScanTakesAll<T>(file: seq<byte>, budget: Budget, codec: Codec<T>, s: Scan<T>,
                                          taken: seq<seq<byte>>, ahead: seq<seq<byte>>)
    requires s.offset <= |file| && LinesAhead(file, s.offset, ahead)
    requires TakesAll(s, |taken|, taken + ahead, budget, codec)
    ensures ScanEndsWithAll(file, budget, codec, s, taken + ahead)
    decreases s.offset, 1
  {
    ScanUnfolds(file, budget, codec, s);
    AheadOfLine(file, s.offset, ahead);
    var line := PreviousLine(file[..s.offset]);
    if ahead == [] {
      assert taken + ahead == taken;
      if line.ReverseLine? && |s.items| < budget.maxItems && s.retainedBytes < budget.maxBytes {
        ScanTakesAll(file, budget, codec, s.(offset := line.start), taken, ahead);
      }
    } else {
      RoomForNext(s, taken, ahead, line.start, budget, codec);
      if line.bytes == [] {
        ScanTakesAll(file, budget, codec, s.(offset := line.start), taken, ahead);
      } else {
        ScanTakesRest(file, budget, codec, s, taken, ahead, line.start);
      }
    }
  }

  lemma {:induction false} ScanTakesRest<T>(file: seq<byte>, budget: Budget, codec: Codec<T>, s: Scan<T>,
                                           taken: seq<seq<byte>>, ahead: seq<seq<byte>>, start: nat)
    requires s.offset <= |file| && start < s.offset && ahead != [] && ahead[0] != []
    requires PreviousLine(file[..s.offset]) == ReverseLine(ahead[0], start)
    requires LinesAhead(file, start, ahead[1..]) && TakesAll(s, |taken|, taken + ahead, budget, codec)
    ensures ScanEndsWithAll(file, budget, codec, s, taken + ahead)
    decreases s.offset, 0
  {
    ScanUnfolds(file, budget, codec, s);
    RoomForNext(s, taken, ahead, start, budget, codec);
    TakeShows(s, start, codec, taken, ahead);
    var next := TakeLine(s, ahead[0], start, codec).value;
    ScanTakesAll(file, budget, codec, next, taken + [ahead[0]], ahead[1..]);
    assert ScanTail(file, budget, codec, s) == ScanTail(file, budget, codec, next);
  }

  /** A file whose lines, the empty ones left out, are numbered 1, 2, 3, ... and fit the budget together is shown
      whole, with nothing omitted and no cursor. */
  lemma WholeFileIsShown<T>(file: seq<byte>, budget: Budget, codec: Codec<T>)
    requires ReverseLines(file).Ok? && budget.maxItems > 0 && budget.maxBytes > 0
    requires var lines := NonEmpty(ReverseLines(file).value);
      NumberedDown(lines, codec) && |lines| <= budget.maxItems && LineBytes(lines) <= budget.maxBytes
    ensures var lines, page := NonEmpty(ReverseLines(file).value), TailPage(file, budget, codec);
      && page.Ok? && |page.value.items| == |lines|
      && page.value.omittedItems == 0 && page.value.continuation == None
  {
    var lines := NonEmpty(ReverseLines(file).value);
    assert file[..|file|] == file;
    var s := WholeScan(file, lines, budget, codec);
    TailPageOfScan(file, budget, codec, s);
  }

  lemma WholeScan<T>(file: seq<byte>, lines: seq<seq<byte>>, budget: Budget, codec: Codec<T>) returns (s: Scan<T>)
    requires LinesAhead(file, |file|, lines)
    requires NumberedDown(lines, codec) && |lines| <= budget.maxItems && LineBytes(lines) <= budget.maxBytes
    ensures ScanTail(file, budget, codec, Scan(|file|, [], 0, None, |file|)) == Ok(s)
    ensures s.offset <= |file| && TakesAll(s, |lines|, lines, budget, codec)
  {
    var start: Scan<T> := Scan(|file|, [], 0, None, |file|);
    assert [] + lines == lines;
    assert TakesAll(start, 0, lines, budget, codec);
    ScanTakesAll(file, budget, codec, start, [], lines);
    ScanStaysInside(file, budget, codec, start);
    s := ScanTail(file, budget, codec, start).value;
  }
}
