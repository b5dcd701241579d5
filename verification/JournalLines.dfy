// Line structure of a journal, read forwards and backwards (crates/event-journal/src/read.rs).
module JournalLines {
  import opened Wrappers
  import opened Laws
  import opened Bytes
  import opened JournalStorage

  function StripCr(line: seq<byte>): seq<byte> {
    if line != [] && line[|line| - 1] == CR then line[..|line| - 1] else line
  }

  // ---------------------------------------------------------------- forwards

  datatype LineRead = EndOfLog | TooLong | Line(bytes: seq<byte>, consumed: nat)

  // One bounded line at the front of the unread bytes. Only a terminated line loses its CR.
  function NextLine(unread: seq<byte>): (r: LineRead)
    ensures r.Line? ==> 0 < r.consumed <= |unread|
  {
    if unread == [] then EndOfLog
    else
      var k := FirstNewline(unread);
      var take := if k < |unread| then k + 1 else k;
      if take > MAX_JOURNAL_RECORD_BYTES then TooLong
      else Line(if k < |unread| then StripCr(unread[..k]) else unread, take)
  }

  function ForwardLines(unread: seq<byte>): Result<seq<seq<byte>>, JournalError>
    decreases |unread|
  {
    match NextLine(unread)
    case EndOfLog => Ok([])
    case TooLong => Err(Corrupt)
    case Line(line, consumed) =>
      match ForwardLines(unread[consumed..])
      case Ok(rest) => Ok([line] + rest)
      case Err(e) => Err(e)
  }

  // ---------------------------------------------------------------- backwards

  datatype ReverseRead = AtStart | ReverseTooLong | ReverseLine(bytes: seq<byte>, start: nat)

  // The last line of the bytes before the cursor.
  function PreviousLine(before: seq<byte>): (r: ReverseRead)
    ensures r.ReverseLine? ==> r.start < |before|
  {
    if before == [] then AtStart
    else
      var end := if before[|before| - 1] == NL then |before| - 1 else |before|;
      if end == 0 then AtStart
      else
        var start := LastLineStart(before[..end]);
        var line := StripCr(before[start..end]);
        if |line| > MAX_JOURNAL_RECORD_BYTES then ReverseTooLong else ReverseLine(line, start)
  }

  // All lines before the cursor, newest first.
  function ReverseLines(before: seq<byte>): Result<seq<seq<byte>>, JournalError>
    decreases |before|
  {
    match PreviousLine(before)
    case AtStart => Ok([])
    case ReverseTooLong => Err(Corrupt)
    case ReverseLine(line, start) =>
      match ReverseLines(before[..start])
      case Ok(rest) => Ok([line] + rest)
      case Err(e) => Err(e)
  }

  // ---------------------------------------------------------------- agreement

  function NonEmpty(lines: seq<seq<byte>>): seq<seq<byte>> {
    if lines == [] then []
    else (if lines[0] == [] then [] else [lines[0]]) + NonEmpty(lines[1..])
  }

  function Reversed<T>(s: seq<T>): (r: seq<T>)
    ensures |r| == |s|
  {
    seq(|s|, i requires 0 <= i < |s| => s[|s| - 1 - i])
  }

  predicate AtLineBoundary(b: seq<byte>) {
    b == [] || b[|b| - 1] == NL
  }

  lemma {:induction false} NonEmptyAppend(a: seq<seq<byte>>, b: seq<seq<byte>>)
    ensures NonEmpty(a + b) == NonEmpty(a) + NonEmpty(b)
  {
    if a == [] {
      assert a + b == b;
    } else {
      NonEmptyAppend(a[1..], b);
      assert (a + b)[1..] == a[1..] + b;
      Associative(if a[0] == [] then [] else [a[0]], NonEmpty(a[1..]), NonEmpty(b));
    }
  }

  lemma FirstNewlineOfPrefix(p: seq<byte>, rest: seq<byte>)
    requires p != [] && AtLineBoundary(p)
    ensures FirstNewline(p + rest) == FirstNewline(p) < |p|
  {
    assert p[|p| - 1] == NL;
    FirstNewlineAt(p + rest, FirstNewline(p));
  }

  // Reading forwards splits at every line boundary.
  lemma {:induction false} ForwardSplit(p: seq<byte>, rest: seq<byte>)
    requires AtLineBoundary(p)
    ensures ForwardLines(p + rest) ==
      match ForwardLines(p)
      case Err(e) => Err(e)
      case Ok(first) =>
        match ForwardLines(rest)
        case Err(e) => Err(e)
        case Ok(second) => Ok(first + second)
    decreases |p|
  {
    if p == [] {
      assert p + rest == rest;
      assert ForwardLines(p) == Ok([]);
      if ForwardLines(rest).Ok? {
        assert [] + ForwardLines(rest).value == ForwardLines(rest).value;
      }
    } else {
      FirstNewlineOfPrefix(p, rest);
      var k := FirstNewline(p);
      assert (p + rest)[..k] == p[..k];
      assert NextLine(p + rest) == NextLine(p);
      if NextLine(p).Line? {
        assert (p + rest)[k + 1..] == p[k + 1..] + rest;
        ForwardSplit(p[k + 1..], rest);
        if ForwardLines(p[k + 1..]).Ok? && ForwardLines(rest).Ok? {
          Associative([NextLine(p).bytes], ForwardLines(p[k + 1..]).value, ForwardLines(rest).value);
        }
      }
    }
  }

  // A line with or without its newline.
  function Ended(line: seq<byte>, terminated: bool): seq<byte> {
    if terminated then line + [NL] else line
  }

  predicate IsLastLine(p: seq<byte>, line: seq<byte>, terminated: bool) {
    AtLineBoundary(p) && NoNewline(line) && (terminated || line != [])
  }

  predicate NoNewline(line: seq<byte>) {
    forall i :: 0 <= i < |line| ==> line[i] != NL
  }

  // A single line read forwards.
  lemma ForwardOne(line: seq<byte>, terminated: bool)
    requires NoNewline(line) && (terminated || line != [])
    ensures var b := Ended(line, terminated);
      ForwardLines(b) ==
        if |b| > MAX_JOURNAL_RECORD_BYTES then Err(Corrupt)
        else Ok([if terminated then StripCr(line) else line])
  {
    var b := Ended(line, terminated);
    var k := FirstNewline(b);
    if terminated {
      FirstNewlineAt(b, |line|);
      assert b[..k] == line;
      assert b[k + 1..] == [];
    } else {
      assert k == |b|;
      assert b[k..] == [];
    }
    assert ForwardLines([]) == Ok([]);
    if NextLine(b).Line? {
      assert b[NextLine(b).consumed..] == [];
      assert [NextLine(b).bytes] + [] == [NextLine(b).bytes];
    }
  }

  // A last line read forwards, behind the lines before it.
  lemma ForwardLast(p: seq<byte>, line: seq<byte>, terminated: bool)
    requires IsLastLine(p, line, terminated)
    requires ForwardLines(p + Ended(line, terminated)).Ok?
    ensures ForwardLines(p).Ok? && |StripCr(line)| <= MAX_JOURNAL_RECORD_BYTES
    ensures ForwardLines(p + Ended(line, terminated)).value ==
      ForwardLines(p).value + [if terminated then StripCr(line) else line]
  {
    ForwardSplit(p, Ended(line, terminated));
    ForwardOne(line, terminated);
  }

  // A last line found backwards.
  lemma PreviousLast(p: seq<byte>, line: seq<byte>, terminated: bool)
    requires IsLastLine(p, line, terminated)
    ensures PreviousLine(p + Ended(line, terminated)) ==
      if p == [] && line == [] then AtStart
      else if |StripCr(line)| > MAX_JOURNAL_RECORD_BYTES then ReverseTooLong
      else ReverseLine(StripCr(line), |p|)
    ensures (p + Ended(line, terminated))[..|p|] == p
  {
    var b := p + Ended(line, terminated);
    var end := |p + line|;
    EndedAt(p, line, terminated);
    if end > 0 {
      PreviousFrom(b, end, |p|);
    }
  }

  lemma EndedAt(p: seq<byte>, line: seq<byte>, terminated: bool)
    requires terminated || line != []
    ensures var b, end := p + Ended(line, terminated), |p + line|;
      && b[..|p|] == p && b[|p|..end] == line
      && (if terminated then end == |b| - 1 && b[end] == NL else end == |b| && b[end - 1] == line[|line| - 1])
      && (p != [] ==> b[|p| - 1] == p[|p| - 1])
      && forall i :: |p| <= i < end ==> b[i] == line[i - |p|]
  {
  }

  // The reverse reader, given where the last line starts and ends.
  lemma PreviousFrom(b: seq<byte>, end: nat, start: nat)
    requires 0 < end <= |b| && start <= end
    requires if end == |b| then b[end - 1] != NL else end == |b| - 1 && b[end] == NL
    requires start > 0 ==> b[start - 1] == NL
    requires forall i :: start <= i < end ==> b[i] != NL
    ensures PreviousLine(b) ==
      if |StripCr(b[start..end])| > MAX_JOURNAL_RECORD_BYTES then ReverseTooLong
      else ReverseLine(StripCr(b[start..end]), start)
  {
    LastLineStartAt(b[..end], start);
  }

  lemma ReverseLast(p: seq<byte>, line: seq<byte>, terminated: bool)
    requires IsLastLine(p, line, terminated)
    requires |StripCr(line)| <= MAX_JOURNAL_RECORD_BYTES && ReverseLines(p).Ok?
    ensures ReverseLines(p + Ended(line, terminated)).Ok?
    ensures NonEmpty(ReverseLines(p + Ended(line, terminated)).value) ==
      NonEmpty([StripCr(line)]) + NonEmpty(ReverseLines(p).value)
  {
    PreviousLast(p, line, terminated);
    if p == [] && line == [] {
      assert ReverseLines(p) == Ok([]);
      assert NonEmpty([StripCr(line)]) == [];
    } else {
      NonEmptyAppend([StripCr(line)], ReverseLines(p).value);
    }
  }

  // Every non-empty log ends in a last line.
  lemma SplitLastLine(b: seq<byte>) returns (p: seq<byte>, line: seq<byte>, terminated: bool)
    requires b != []
    ensures IsLastLine(p, line, terminated) && b == p + Ended(line, terminated)
    ensures terminated <==> b[|b| - 1] == NL
  {
    terminated := b[|b| - 1] == NL;
    var end := if terminated then |b| - 1 else |b|;
    var start := LastLineStart(b[..end]);
    p, line := b[..start], b[start..end];
    forall i | 0 <= i < |line| ensures line[i] != NL {
      assert line[i] == b[..end][start + i];
    }
    if start > 0 {
      assert p[start - 1] == b[..end][start - 1];
    }
    assert b == p + b[start..];
    assert b[start..] == Ended(line, terminated);
  }

  // Adding a line at the end of one list and at the front of its reversal.
  lemma OppositeEnds(older: seq<seq<byte>>, last: seq<byte>, stripped: seq<byte>)
    requires stripped == last || stripped == StripCr(last)
    ensures NonEmpty([stripped]) + Reversed(older) == Reversed(older + NonEmpty([last])) <==> stripped == last
  {
    assert [last][1..] == [] && [stripped][1..] == [];
    assert NonEmpty([last]) == (if last == [] then [] else [last]);
    if last != [] {
      var mine, theirs := NonEmpty([stripped]) + Reversed(older), Reversed(older + [last]);
      assert theirs == [last] + Reversed(older);
      if stripped != last {
        if stripped == [] {
          assert |mine| == |older|;
        } else {
          assert mine[0] == stripped;
          assert theirs[0] == last;
        }
      }
    } else {
      assert older + [] == older;
    }
  }

  /** The reverse reader visits the lines of the forward reader in the opposite order, once empty
      lines are dropped, exactly when the log does not end in a carriage return. */
  lemma {:induction false} ReadersAgree(b: seq<byte>)
    requires ForwardLines(b).Ok?
    ensures ReverseLines(b).Ok?
    ensures NonEmpty(ReverseLines(b).value) == Reversed(NonEmpty(ForwardLines(b).value))
      <==> (b == [] || b[|b| - 1] != CR)
    decreases |b|
  {
    if b != [] {
      var p, line, terminated := SplitLastLine(b);
      ForwardLast(p, line, terminated);
      ReadersAgree(p);
      ReverseLast(p, line, terminated);
      var last := if terminated then StripCr(line) else line;
      NonEmptyAppend(ForwardLines(p).value, [last]);
      assert !terminated ==> b[|b| - 1] == line[|line| - 1];
      OppositeEnds(NonEmpty(ForwardLines(p).value), last, StripCr(line));
    }
  }

  /** The two readers bound a line differently: forwards the newline counts, backwards neither it nor
      a carriage return does, so some lines are read backwards only. */
  lemma SizeLimitsDiffer(line: seq<byte>)
    requires line != [] && forall i :: 0 <= i < |line| ==> line[i] != NL
    ensures NextLine(line + [NL]).Line? <==> |line| < MAX_JOURNAL_RECORD_BYTES
    ensures PreviousLine(line + [NL]).ReverseLine? <==> |StripCr(line)| <= MAX_JOURNAL_RECORD_BYTES
  {
    FirstNewlineAt(line + [NL], |line|);
    assert (line + [NL])[..|line|] == line;
    LastLineStartAt(line, 0);
  }

  /** Both readers take one carriage return off a terminated line, and nothing else. */
  lemma OneCarriageReturnIsStripped(older: seq<byte>, line: seq<byte>, rest: seq<byte>)
    requires AtLineBoundary(older) && NoNewline(line) && |line| + 2 <= MAX_JOURNAL_RECORD_BYTES
    ensures NextLine(line + [CR, NL] + rest) == Line(line, |line| + 2)
    ensures PreviousLine(older + (line + [CR, NL])) == ReverseLine(line, |older|)
    ensures line != [] && line[|line| - 1] != CR ==>
      && NextLine(line + [NL] + rest) == Line(line, |line| + 1)
      && PreviousLine(older + (line + [NL])) == ReverseLine(line, |older|)
  {
    var longer := line + [CR];
    assert line + [CR, NL] == longer + [NL];
    NextTerminated(longer, rest);
    PreviousLast(older, longer, true);
    assert longer[..|line|] == line;
    NextTerminated(line, rest);
    PreviousLast(older, line, true);
  }

  lemma NextTerminated(line: seq<byte>, rest: seq<byte>)
    requires NoNewline(line) && |line| < MAX_JOURNAL_RECORD_BYTES
    ensures NextLine(line + [NL] + rest) == Line(StripCr(line), |line| + 1)
  {
    var unread := line + [NL] + rest;
    FirstNewlineAt(unread, |line|);
    assert unread[..|line|] == line;
  }

  // ---------------------------------------------------------------- logs of complete frames

  // A frame body followed by its newline, with nothing that a reader would strip.
  predicate IsLine(f: seq<byte>) {
    && 2 <= |f| <= MAX_JOURNAL_RECORD_BYTES
    && f[|f| - 1] == NL
    && f[|f| - 2] != CR
    && forall i :: 0 <= i < |f| - 1 ==> f[i] != NL
  }

  predicate AllLines(frames: seq<seq<byte>>) {
    forall i :: 0 <= i < |frames| ==> IsLine(frames[i])
  }

  function Body(f: seq<byte>): seq<byte>
    requires |f| > 0
  {
    f[..|f| - 1]
  }

  lemma BodyEnded(f: seq<byte>)
    requires IsLine(f)
    ensures f == Ended(Body(f), true) && NoNewline(Body(f)) && StripCr(Body(f)) == Body(f)
    ensures 0 < |Body(f)| < MAX_JOURNAL_RECORD_BYTES
  {
  }

  function Bodies(frames: seq<seq<byte>>): (r: seq<seq<byte>>)
    requires AllLines(frames)
    ensures |r| == |frames|
    ensures forall i :: 0 <= i < |r| ==> r[i] == Body(frames[i])
  {
    if frames == [] then [] else [Body(frames[0])] + Bodies(frames[1..])
  }

  lemma {:induction false} ConcatAtBoundary(frames: seq<seq<byte>>)
    requires AllLines(frames)
    ensures AtLineBoundary(Concat(frames))
    ensures frames != [] ==> |Concat(frames)| >= 2
  {
    if frames != [] {
      ConcatAtBoundary(frames[1..]);
      var rest := Concat(frames[1..]);
      if rest == [] {
        assert frames[0] + rest == frames[0];
      } else {
        assert (frames[0] + rest)[|frames[0] + rest| - 1] == rest[|rest| - 1];
      }
    }
  }

  // Reading a log of frames forwards returns exactly the frame bodies, in order.
  lemma {:induction false} ForwardReadsFrames(frames: seq<seq<byte>>)
    requires AllLines(frames)
    ensures ForwardLines(Concat(frames)) == Ok(Bodies(frames))
  {
    if frames != [] {
      var f := frames[0];
      BodyEnded(f);
      ForwardOne(Body(f), true);
      ForwardSplit(f, Concat(frames[1..]));
      ForwardReadsFrames(frames[1..]);
      assert StripCr(Body(f)) == Body(f);
    }
  }

  // The last line of a log of frames is the last frame.
  lemma PreviousOfFrames(frames: seq<seq<byte>>)
    requires frames != [] && AllLines(frames)
    ensures var older := frames[..|frames| - 1];
      && Concat(frames) == Concat(older) + frames[|frames| - 1]
      && Concat(frames)[..|Concat(older)|] == Concat(older)
      && PreviousLine(Concat(frames)) == ReverseLine(Body(frames[|frames| - 1]), |Concat(older)|)
  {
    var older, f := frames[..|frames| - 1], frames[|frames| - 1];
    assert frames == older + [f];
    ConcatSnoc(older, f);
    ConcatAtBoundary(older);
    LastFrameLine(Concat(older), f);
  }

  lemma LastFrameLine(older: seq<byte>, f: seq<byte>)
    requires AtLineBoundary(older) && IsLine(f)
    ensures PreviousLine(older + f) == ReverseLine(Body(f), |older|)
  {
    BodyEnded(f);
    PreviousLast(older, Body(f), true);
  }
}
