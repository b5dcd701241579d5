// The two line readers of crates/event-journal/src/read.rs as they run: the bounded forward reader
// over a buffered file and the chunked reverse reader.
module JournalReaders {
  import opened Wrappers
  import opened Bytes
  import opened JournalStorage
  import opened JournalLines

  // A buffered reader: each fill exposes some non-empty prefix of the unread bytes.
  class BufReader {
    const file: seq<byte>
    var position: nat

    constructor (file: seq<byte>)
      ensures this.file == file && position == 0
    {
      this.file := file;
      position := 0;
    }

    ghost predicate Valid()
      reads this
    {
      position <= |file|
    }

    ghost function Unread(): seq<byte>
      requires Valid()
      reads this
    {
      file[position..]
    }

    // The buffering is left open: any amount may be available.
    method FillBuf() returns (available: seq<byte>)
      requires Valid()
      ensures available <= Unread()
      ensures available == [] ==> Unread() == []
    {
      if position == |file| {
        return [];
      }
      assert 1 <= |file| - position;
      var n: nat :| 1 <= n <= |file| - position;
      available := file[position..position + n];
    }

    method Consume(n: nat)
      requires Valid() && n <= |Unread()|
      modifies this
      ensures Valid() && Unread() == old(Unread())[n..]
    {
      position := position + n;
    }
  }

  // What one more fill tells about the first newline of the unread bytes.
  lemma FillFindsNewline(unread: seq<byte>, have: nat, available: seq<byte>)
    requires have <= |unread| && available <= unread[have..]
    requires forall i :: 0 <= i < have ==> unread[i] != NL
    ensures var k := FirstNewline(available);
      if k < |available| then FirstNewline(unread) == have + k
      else forall i :: 0 <= i < have + |available| ==> unread[i] != NL
  {
    var k := FirstNewline(available);
    assert forall i :: have <= i < have + |available| ==> unread[i] == available[i - have];
    if k < |available| {
      FirstNewlineAt(unread, have + k);
    }
  }

  // The three ways a bounded read ends, from what has been gathered so far.
  lemma EndsAtEndOfLog(unread: seq<byte>)
    requires |unread| <= MAX_JOURNAL_RECORD_BYTES && forall i :: 0 <= i < |unread| ==> unread[i] != NL
    ensures NextLine(unread) == if unread == [] then EndOfLog else Line(unread, |unread|)
  {
    assert FirstNewline(unread) == |unread|;
  }

  lemma EndsTooLong(unread: seq<byte>, n: nat)
    requires MAX_JOURNAL_RECORD_BYTES < n <= |unread| && forall i :: 0 <= i < n - 1 ==> unread[i] != NL
    ensures NextLine(unread) == TooLong
  {
    assert FirstNewline(unread) >= n - 1;
  }

  lemma EndsAtNewline(unread: seq<byte>, n: nat)
    requires 0 < n <= |unread| && n <= MAX_JOURNAL_RECORD_BYTES && unread[n - 1] == NL
    requires forall i :: 0 <= i < n - 1 ==> unread[i] != NL
    ensures NextLine(unread) == Line(StripCr(unread[..n - 1]), n)
  {
    FirstNewlineAt(unread, n - 1);
  }

  /** Reads one line of at most the record limit, whatever the buffer boundaries are. */
  method ReadBoundedLine(reader: BufReader) returns (r: Result<Option<seq<byte>>, JournalError>)
    requires reader.Valid()
    modifies reader
    ensures reader.Valid()
    ensures match NextLine(old(reader.Unread()))
      case EndOfLog => r == Ok(None) && reader.Unread() == []
      case TooLong => r == Err(Corrupt)
      case Line(line, consumed) => r == Ok(Some(line)) && reader.Unread() == old(reader.Unread())[consumed..]
  {
    ghost var unread := reader.Unread();
    var line: seq<byte> := [];
    while true
      invariant reader.Valid()
      invariant |line| <= |unread| && line == unread[..|line|] && |line| <= MAX_JOURNAL_RECORD_BYTES
      invariant reader.Unread() == unread[|line|..]
      invariant forall i :: 0 <= i < |line| ==> unread[i] != NL
      decreases |unread| - |line|
    {
      var available := reader.FillBuf();
      if available == [] {
        assert line == unread;
        EndsAtEndOfLog(unread);
        return Ok(if line == [] then None else Some(line));
      }
      ghost var have := |line|;
      var k := FirstNewline(available);
      var take := if k < |available| then k + 1 else |available|;
      Gathers(unread, have, available, take);
      if |line| + take > MAX_JOURNAL_RECORD_BYTES {
        EndsTooLong(unread, have + take);
        return Err(Corrupt);
      }
      line := line + available[..take];
      reader.Consume(take);
      if line[|line| - 1] == NL {
        EndsAtNewline(unread, have + take);
        ButLast(unread, have + take);
        line := line[..|line| - 1];
        return Ok(Some(StripCr(line)));
      }
    }
  }

  // One fill more: what has been gathered then, and that it holds no newline before its last byte.
  lemma Gathers(unread: seq<byte>, have: nat, available: seq<byte>, take: nat)
    requires have <= |unread| && available <= unread[have..] && available != []
    requires forall i :: 0 <= i < have ==> unread[i] != NL
    requires var k := FirstNewline(available); take == if k < |available| then k + 1 else |available|
    ensures 0 < take && have + take <= |unread|
    ensures unread[..have] + available[..take] == unread[..have + take]
    ensures unread[have..][take..] == unread[have + take..]
    ensures forall i :: 0 <= i < have + take - 1 ==> unread[i] != NL
  {
    FillFindsNewline(unread, have, available);
    GatherMore(unread, have, available, take);
  }

  lemma ButLast(b: seq<byte>, n: nat)
    requires 0 < n <= |b|
    ensures b[..n][..n - 1] == b[..n - 1] && b[..n][n - 1] == b[n - 1]
  {
  }

  lemma GatherMore(unread: seq<byte>, have: nat, available: seq<byte>, take: nat)
    requires have <= |unread| && available <= unread[have..] && take <= |available|
    ensures unread[..have] + available[..take] == unread[..have + take]
    ensures unread[have..][take..] == unread[have + take..]
  {
  }

  // ---------------------------------------------------------------- visiting every line

  datatype Visit = Visit(line: seq<byte>, number: nat)

  datatype VisitReport = VisitReport(visits: seq<Visit>, end: Result<(), JournalError>)

  // What a visit of the unread bytes reports: the lines handed over, and how it ends.
  function Visits(unread: seq<byte>, number: nat, isText: seq<byte> -> bool, isBlank: seq<byte> -> bool,
                  accept: Visit -> bool): VisitReport
    decreases |unread|, 1
  {
    VisitsHere(unread, number, isText, isBlank, accept)
  }

  function VisitsHere(unread: seq<byte>, number: nat, isText: seq<byte> -> bool, isBlank: seq<byte> -> bool,
                      accept: Visit -> bool): VisitReport
    decreases |unread|, 0
  {
    match NextLine(unread)
    case EndOfLog => VisitReport([], Ok(()))
    case TooLong => VisitReport([], Err(Corrupt))
    case Line(line, consumed) =>
      var visit := Visit(line, number + 1);
      if !isText(line) then VisitReport([], Err(Corrupt))
      else if isBlank(line) then Visits(unread[consumed..], number + 1, isText, isBlank, accept)
      else if !accept(visit) then VisitReport([visit], Err(InvalidInput))
      else
        var rest := Visits(unread[consumed..], number + 1, isText, isBlank, accept);
        rest.(visits := [visit] + rest.visits)
  }

  // Hands every line that is not blank to the visitor; a refusal by the visitor ends the visit.
  method VisitLines(file: seq<byte>, isText: seq<byte> -> bool, isBlank: seq<byte> -> bool, accept: Visit -> bool)
    returns (report: VisitReport)
    ensures report == Visits(file, 0, isText, isBlank, accept)
  {
    var reader := new BufReader(file);
    var visits: seq<Visit> := [];
    var number := 0;
    ghost var whole := Visits(file, 0, isText, isBlank, accept);
    assert reader.Unread() == file;
    while true
      invariant reader.Valid() && fresh(reader)
      invariant var rest := Visits(reader.Unread(), number, isText, isBlank, accept);
        whole.visits == visits + rest.visits && whole.end == rest.end
      decreases |reader.Unread()|
    {
      var line := ReadBoundedLine(reader);
      if line.Err? {
        return VisitReport(visits, Err(line.error));
      }
      if line.value == None {
        return VisitReport(visits, Ok(()));
      }
      number := number + 1;
      var visit := Visit(line.value.value, number);
      if !isText(visit.line) {
        return VisitReport(visits, Err(Corrupt));
      }
      if !isBlank(visit.line) {
        visits := visits + [visit];
        if !accept(visit) {
          return VisitReport(visits, Err(InvalidInput));
        }
      }
    }
  }

  /** A log of frames is visited frame by frame, numbered from one, and to its end. */
  lemma {:induction false} VisitsFrames(frames: seq<seq<byte>>, number: nat, isText: seq<byte> -> bool,
                                        isBlank: seq<byte> -> bool, accept: Visit -> bool)
    requires AllLines(frames)
    requires forall i :: 0 <= i < |frames| ==>
      isText(Body(frames[i])) && !isBlank(Body(frames[i])) && accept(Visit(Body(frames[i]), number + i + 1))
    ensures var report := Visits(Concat(frames), number, isText, isBlank, accept);
      && report.end == Ok(())
      && |report.visits| == |frames|
      && forall i :: 0 <= i < |frames| ==> report.visits[i] == Visit(Body(frames[i]), number + i + 1)
  {
    if frames != [] {
      var f, rest := frames[0], frames[1..];
      FirstNewlineAt(f + Concat(rest), |f| - 1);
      assert (f + Concat(rest))[..|f| - 1] == Body(f);
      assert (f + Concat(rest))[|f|..] == Concat(rest);
      assert StripCr(Body(f)) == Body(f);
      forall i | 0 <= i < |rest|
        ensures isText(Body(rest[i])) && !isBlank(Body(rest[i])) && accept(Visit(Body(rest[i]), number + 1 + i + 1))
      {
        assert rest[i] == frames[i + 1];
      }
      VisitsFrames(rest, number + 1, isText, isBlank, accept);
    }
  }

  // The lines that are not blank, each with its number in the file.
  function NonBlank(lines: seq<seq<byte>>, number: nat, isBlank: seq<byte> -> bool): seq<Visit> {
    if lines == [] then []
    else (if isBlank(lines[0]) then [] else [Visit(lines[0], number + 1)]) + NonBlank(lines[1..], number + 1, isBlank)
  }

  // The line is text, and blank or accepted by the visitor.
  predicate Passes(line: seq<byte>, number: nat, isText: seq<byte> -> bool, isBlank: seq<byte> -> bool,
                   accept: Visit -> bool)
  {
    isText(line) && (isBlank(line) || accept(Visit(line, number)))
  }

  ghost predicate PassUpTo(lines: seq<seq<byte>>, m: nat, number: nat, isText: seq<byte> -> bool,
                           isBlank: seq<byte> -> bool, accept: Visit -> bool)
    requires m <= |lines|
  {
    forall i :: 0 <= i < m ==> Passes(lines[i], number + i + 1, isText, isBlank, accept)
  }

  // A report of these lines: it ends at line m, or past the last one.
  predicate Reports(report: VisitReport, lines: seq<seq<byte>>, m: nat, number: nat, isText: seq<byte> -> bool,
                    isBlank: seq<byte> -> bool)
    requires m <= |lines|
  {
    var passed := NonBlank(lines[..m], number, isBlank);
    if m == |lines| then report == VisitReport(passed, Ok(()))
    else if !isText(lines[m]) then report == VisitReport(passed, Err(Corrupt))
    else report == VisitReport(passed + [Visit(lines[m], number + m + 1)], Err(InvalidInput))
  }

  lemma OneMoreReported(report: VisitReport, lines: seq<seq<byte>>, m: nat, number: nat, isText: seq<byte> -> bool,
                        isBlank: seq<byte> -> bool)
    requires 0 < m <= |lines| && Reports(report, lines[1..], m - 1, number + 1, isText, isBlank)
    ensures var first := if isBlank(lines[0]) then [] else [Visit(lines[0], number + 1)];
      Reports(report.(visits := first + report.visits), lines, m, number, isText, isBlank)
  {
    assert lines[..m][1..] == lines[1..][..m - 1];
  }

  // One line more, read and visited.
  lemma VisitsOneMore(unread: seq<byte>, number: nat, isText: seq<byte> -> bool, isBlank: seq<byte> -> bool,
                      accept: Visit -> bool)
    requires NextLine(unread).Line?
    ensures var line, after := NextLine(unread).bytes, unread[NextLine(unread).consumed..];
      var rest := Visits(after, number + 1, isText, isBlank, accept);
      Visits(unread, number, isText, isBlank, accept) ==
      if Passes(line, number + 1, isText, isBlank, accept)
      then rest.(visits := (if isBlank(line) then [] else [Visit(line, number + 1)]) + rest.visits)
      else if !isText(line) then VisitReport([], Err(Corrupt))
      else VisitReport([Visit(line, number + 1)], Err(InvalidInput))
  {
  }

  lemma NextOfLines(unread: seq<byte>, lines: seq<seq<byte>>)
    requires ForwardLines(unread) == Ok(lines)
    ensures if lines == [] then NextLine(unread).EndOfLog?
            else NextLine(unread).Line? && NextLine(unread).bytes == lines[0]
                 && ForwardLines(unread[NextLine(unread).consumed..]) == Ok(lines[1..])
  {
    if NextLine(unread).Line? {
      var rest := ForwardLines(unread[NextLine(unread).consumed..]).value;
      assert ([NextLine(unread).bytes] + rest)[1..] == rest;
    }
  }

  lemma PassesBehind(lines: seq<seq<byte>>, m: nat, number: nat, isText: seq<byte> -> bool,
                     isBlank: seq<byte> -> bool, accept: Visit -> bool)
    requires 0 < m <= |lines|
    requires PassUpTo(lines, m, number, isText, isBlank, accept)
    ensures Passes(lines[0], number + 1, isText, isBlank, accept)
    ensures PassUpTo(lines[1..], m - 1, number + 1, isText, isBlank, accept)
  {
    assert Passes(lines[0], number + 0 + 1, isText, isBlank, accept);
    forall i | 0 <= i < m - 1
      ensures Passes(lines[1..][i], number + 1 + i + 1, isText, isBlank, accept)
    {
      assert Passes(lines[i + 1], number + (i + 1) + 1, isText, isBlank, accept);
    }
  }

  /** A visit of any file hands over the lines that are not blank, numbered as they stand in the file, up to the
      first line that is not text or that the visitor refuses; the former is not handed over and makes the file
      corrupt, the latter is handed over and ends the visit with the refusal. */
  lemma {:induction false} VisitsExactly(unread: seq<byte>, lines: seq<seq<byte>>, m: nat, number: nat,
                                         isText: seq<byte> -> bool, isBlank: seq<byte> -> bool,
                                         accept: Visit -> bool)
    requires ForwardLines(unread) == Ok(lines) && m <= |lines|
    requires PassUpTo(lines, m, number, isText, isBlank, accept)
    requires m < |lines| ==> !Passes(lines[m], number + m + 1, isText, isBlank, accept)
    ensures Reports(Visits(unread, number, isText, isBlank, accept), lines, m, number, isText, isBlank)
    decreases |unread|, 1
  {
    if m == 0 {
      VisitEndsHere(unread, lines, number, isText, isBlank, accept);
    } else {
      NextOfLines(unread, lines);
      PassesBehind(lines, m, number, isText, isBlank, accept);
      VisitsBehind(unread, lines, m, number, isText, isBlank, accept);
    }
  }

  lemma VisitEndsHere(unread: seq<byte>, lines: seq<seq<byte>>, number: nat, isText: seq<byte> -> bool,
                      isBlank: seq<byte> -> bool, accept: Visit -> bool)
    requires ForwardLines(unread) == Ok(lines)
    requires lines != [] ==> !Passes(lines[0], number + 1, isText, isBlank, accept)
    ensures Reports(Visits(unread, number, isText, isBlank, accept), lines, 0, number, isText, isBlank)
  {
    NextOfLines(unread, lines);
    if lines != [] {
      VisitsOneMore(unread, number, isText, isBlank, accept);
    }
  }

  lemma {:induction false} VisitsBehind(unread: seq<byte>, lines: seq<seq<byte>>, m: nat, number: nat,
                                        isText: seq<byte> -> bool, isBlank: seq<byte> -> bool,
                                        accept: Visit -> bool)
    requires 0 < m <= |lines| && NextLine(unread).Line? && NextLine(unread).bytes == lines[0]
    requires ForwardLines(unread[NextLine(unread).consumed..]) == Ok(lines[1..])
    requires Passes(lines[0], number + 1, isText, isBlank, accept)
    requires PassUpTo(lines[1..], m - 1, number + 1, isText, isBlank, accept)
    requires m < |lines| ==> !Passes(lines[m], number + m + 1, isText, isBlank, accept)
    ensures Reports(Visits(unread, number, isText, isBlank, accept), lines, m, number, isText, isBlank)
    decreases |unread|, 0
  {
    var after := unread[NextLine(unread).consumed..];
    VisitsExactly(after, lines[1..], m - 1, number + 1, isText, isBlank, accept);
    OneMoreReported(Visits(after, number + 1, isText, isBlank, accept), lines, m, number, isText, isBlank);
    VisitsOneMore(unread, number, isText, isBlank, accept);
  }

  // A line that is too long is reported, if nothing before it was.
  lemma {:induction false} TooLongIsReported(unread: seq<byte>, number: nat, isText: seq<byte> -> bool,
                                             isBlank: seq<byte> -> bool, accept: Visit -> bool)
    requires ForwardLines(unread).Err?
    ensures Visits(unread, number, isText, isBlank, accept).end.Err?
    decreases |unread|
  {
    var next := NextLine(unread);
    if next.Line? {
      TooLongIsReported(unread[next.consumed..], number + 1, isText, isBlank, accept);
    }
  }

  // ---------------------------------------------------------------- backwards, chunk by chunk

  // Joins the chunks of one line, which were collected newest first, behind a first piece.
  method JoinChunks(first: seq<byte>, newer: seq<seq<byte>>) returns (bytes: seq<byte>)
    ensures bytes == first + Concat(Reversed(newer))
  {
    bytes := first;
    var i := |newer|;
    while i > 0
      invariant 0 <= i <= |newer|
      invariant bytes == first + Concat(Reversed(newer)[..|newer| - i])
    {
      i := i - 1;
      ghost var done := Reversed(newer)[..|newer| - i - 1];
      assert Reversed(newer)[..|newer| - i] == done + [newer[i]];
      ConcatSnoc(done, newer[i]);
      bytes := bytes + newer[i];
    }
    assert Reversed(newer)[..|newer|] == Reversed(newer);
  }

  lemma PushChunk(file: seq<byte>, chunkStart: nat, searchEnd: nat, end: nat, newer: seq<seq<byte>>)
    requires chunkStart <= searchEnd <= end <= |file|
    requires Concat(Reversed(newer)) == file[searchEnd..end]
    ensures Concat(Reversed(newer + [file[chunkStart..searchEnd]])) == file[chunkStart..end]
  {
    var chunk := file[chunkStart..searchEnd];
    assert Reversed(newer + [chunk]) == [chunk] + Reversed(newer);
    assert chunk + file[searchEnd..end] == file[chunkStart..end];
  }

  // Searches backwards from the end of a line for the newline before it, one chunk at a time.
  method SearchLineStart(file: seq<byte>, end: nat, chunkBytes: nat) returns (bytes: seq<byte>, start: nat)
    requires 0 < end <= |file| && chunkBytes > 0
    ensures start == LastLineStart(file[..end]) <= end
    ensures bytes == file[start..end]
  {
    var searchEnd := end;
    var newerChunks: seq<seq<byte>> := [];
    while true
      invariant 0 < searchEnd <= end
      invariant Concat(Reversed(newerChunks)) == file[searchEnd..end]
      invariant forall i :: searchEnd <= i < end ==> file[i] != NL
      decreases searchEnd
    {
      var chunkStart := if searchEnd <= chunkBytes then 0 else searchEnd - chunkBytes;
      var chunk := file[chunkStart..searchEnd];
      var k := LastLineStart(chunk);
      ChunkStart(file, chunkStart, searchEnd, end);
      if k > 0 {
        start := chunkStart + k;
        bytes := JoinChunks(chunk[k..], newerChunks);
        assert bytes == file[start..end];
        return;
      }
      PushChunk(file, chunkStart, searchEnd, end, newerChunks);
      newerChunks := newerChunks + [chunk];
      if chunkStart == 0 {
        bytes := JoinChunks([], newerChunks);
        assert [] + file[0..end] == file[0..end];
        return bytes, 0;
      }
      searchEnd := chunkStart;
    }
  }

  lemma ChunkStart(file: seq<byte>, chunkStart: nat, searchEnd: nat, end: nat)
    requires chunkStart <= searchEnd <= end <= |file|
    requires forall i :: searchEnd <= i < end ==> file[i] != NL
    ensures var k := LastLineStart(file[chunkStart..searchEnd]);
      && (k > 0 || chunkStart == 0 ==> LastLineStart(file[..end]) == chunkStart + k)
      && forall i :: chunkStart + k <= i < end ==> file[i] != NL
  {
    var chunk := file[chunkStart..searchEnd];
    var k := LastLineStart(chunk);
    assert forall i :: chunkStart <= i < searchEnd ==> file[i] == chunk[i - chunkStart];
    if k > 0 || chunkStart == 0 {
      LastLineStartAt(file[..end], chunkStart + k);
    }
  }

  /** Finds the last line before the cursor. The cursor moves to the start of that line, and stays
      where it was when the line is too long. */
  method ReadPreviousLine(file: seq<byte>, cursor: nat, chunkBytes: nat) returns (r: ReverseRead, moved: nat)
    requires cursor <= |file| && chunkBytes > 0
    ensures r == PreviousLine(file[..cursor])
    ensures moved == match r { case AtStart => 0 case ReverseTooLong => cursor case ReverseLine(_, start) => start }
    ensures r.ReverseLine? ==> moved < cursor
  {
    var end := cursor;
    if end == 0 {
      return AtStart, 0;
    }
    if file[end - 1] == NL {
      end := end - 1;
    }
    if end == 0 {
      return AtStart, 0;
    }
    assert file[..cursor][..end] == file[..end];
    var bytes, start := SearchLineStart(file, end, chunkBytes);
    assert bytes == file[..cursor][start..end];
    bytes := StripCr(bytes);
    if |bytes| > MAX_JOURNAL_RECORD_BYTES {
      return ReverseTooLong, cursor;
    }
    return ReverseLine(bytes, start), start;
  }
}
