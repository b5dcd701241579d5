// How a query is split into tokens (crates/tui/src/fuzzy.rs:36).
module FuzzyWords {
  import opened Chars

  // The maximal runs without whitespace.
  function Words(s: string): (words: seq<string>)
    ensures forall i :: 0 <= i < |words| ==> IsWord(words[i])
    ensures words == [] <==> forall i :: 0 <= i < |s| ==> IsWhitespace(s[i])
    decreases |s|
  {
    if s == "" then []
    else if IsWhitespace(s[0]) then Words(s[1..])
    else
      var k := WordEnd(s);
      [s[..k]] + Words(s[k..])
  }

  predicate IsWord(w: string) {
    w != "" && forall i :: 0 <= i < |w| ==> !IsWhitespace(w[i])
  }

  function WordEnd(s: string): (k: nat)
    ensures k <= |s| && forall i :: 0 <= i < k ==> !IsWhitespace(s[i])
    ensures k < |s| ==> IsWhitespace(s[k])
  {
    if s == "" || IsWhitespace(s[0]) then 0 else 1 + WordEnd(s[1..])
  }

  // ---------------------------------------------------------------- stretches

  datatype Span = Span(start: nat, end: nat)

  // A stretch without whitespace that cannot be made longer.
  predicate IsStretch(s: string, x: Span) {
    && x.start < x.end <= |s|
    && (forall i :: x.start <= i < x.end ==> !IsWhitespace(s[i]))
    && (x.start == 0 || IsWhitespace(s[x.start - 1]))
    && (x.end == |s| || IsWhitespace(s[x.end]))
  }

  // All stretches of the text, from left to right.
  ghost predicate AreStretches(spans: seq<Span>, s: string) {
    && (forall x :: x in spans <==> IsStretch(s, x))
    && (forall i, j :: 0 <= i < j < |spans| ==> spans[i].start < spans[j].start)
  }

  function Slice(s: string, x: Span): string {
    if x.start <= x.end <= |s| then s[x.start..x.end] else ""
  }

  function Cut(s: string, spans: seq<Span>): (words: seq<string>)
    ensures |words| == |spans|
    ensures forall i :: 0 <= i < |words| ==> words[i] == Slice(s, spans[i])
  {
    seq(|spans|, i requires 0 <= i < |spans| => Slice(s, spans[i]))
  }

  // The words of a text: its stretches, from left to right.
  ghost predicate AreWords(words: seq<string>, s: string) {
    exists spans :: AreStretches(spans, s) && words == Cut(s, spans)
  }

  function Shifted(x: Span, k: nat): Span {
    Span(x.start + k, x.end + k)
  }

  function AllShifted(spans: seq<Span>, k: nat): (r: seq<Span>)
    ensures |r| == |spans| && forall i :: 0 <= i < |r| ==> r[i] == Shifted(spans[i], k)
  {
    seq(|spans|, i requires 0 <= i < |spans| => Shifted(spans[i], k))
  }

  // Behind whitespace, or in front of it, a text has the stretches of its rest.
  lemma RestHasStretch(s: string, k: nat, x: Span)
    requires 0 < k <= |s| && (k == |s| || IsWhitespace(s[k]) || IsWhitespace(s[k - 1]))
    ensures IsStretch(s[k..], x) <==> IsStretch(s, Shifted(x, k))
  {
    if IsStretch(s, Shifted(x, k)) {
      assert forall i :: x.start <= i < x.end ==> s[k..][i] == s[i + k];
    }
    if IsStretch(s[k..], x) {
      assert forall i :: x.start + k <= i < x.end + k ==> s[i] == s[k..][i - k];
    }
  }

  lemma InShifted(spans: seq<Span>, k: nat, x: Span)
    ensures Shifted(x, k) in AllShifted(spans, k) <==> x in spans
  {
    var shifted := AllShifted(spans, k);
    if x in spans {
      var i :| 0 <= i < |spans| && spans[i] == x;
      assert shifted[i] == Shifted(x, k);
    }
    if Shifted(x, k) in shifted {
      var i :| 0 <= i < |shifted| && shifted[i] == Shifted(x, k);
      assert spans[i] == x;
    }
  }

  lemma RestHasStretches(s: string, k: nat, spans: seq<Span>)
    requires 0 < k <= |s| && (k == |s| || IsWhitespace(s[k]) || IsWhitespace(s[k - 1]))
    requires AreStretches(spans, s[k..])
    ensures forall x: Span :: x.start >= k && x.end >= k ==> (x in AllShifted(spans, k) <==> IsStretch(s, x))
    ensures Cut(s, AllShifted(spans, k)) == Cut(s[k..], spans)
  {
    forall x: Span | x.start >= k && x.end >= k
      ensures x in AllShifted(spans, k) <==> IsStretch(s, x)
    {
      var y := Span(x.start - k, x.end - k);
      assert x == Shifted(y, k);
      InShifted(spans, k, y);
      RestHasStretch(s, k, y);
    }
    ShiftedCut(s, k, spans);
  }

  lemma ShiftedCut(s: string, k: nat, spans: seq<Span>)
    requires k <= |s|
    ensures Cut(s, AllShifted(spans, k)) == Cut(s[k..], spans)
  {
    forall i | 0 <= i < |spans|
      ensures Slice(s, Shifted(spans[i], k)) == Slice(s[k..], spans[i])
    {
    }
  }

  lemma OnlyFirstStretch(s: string, k: nat, x: Span)
    requires s != "" && !IsWhitespace(s[0]) && k == WordEnd(s)
    ensures x.start < k ==> (IsStretch(s, x) <==> x == Span(0, k))
  {
    if 0 < x.start < k {
      assert !IsWhitespace(s[x.start - 1]);
    }
  }

  /** Splitting yields exactly the maximal stretches without whitespace, from left to right and as often as they
      occur. */
  lemma {:induction false} WordsAreTheStretches(s: string) returns (spans: seq<Span>)
    ensures AreStretches(spans, s) && Words(s) == Cut(s, spans)
    decreases |s|
  {
    if s == "" {
      spans := [];
    } else if IsWhitespace(s[0]) {
      var rest := WordsAreTheStretches(s[1..]);
      RestHasStretches(s, 1, rest);
      spans := AllShifted(rest, 1);
    } else {
      var k := WordEnd(s);
      var rest := WordsAreTheStretches(s[k..]);
      RestHasStretches(s, k, rest);
      spans := [Span(0, k)] + AllShifted(rest, k);
      FirstAndRest(s, k, AllShifted(rest, k));
      CutFirst(s, k, AllShifted(rest, k));
    }
  }

  lemma FirstAndRest(s: string, k: nat, later: seq<Span>)
    requires s != "" && !IsWhitespace(s[0]) && k == WordEnd(s)
    requires forall x: Span :: x.start >= k && x.end >= k ==> (x in later <==> IsStretch(s, x))
    requires forall x: Span :: x in later ==> x.start >= k && x.end >= k
    requires forall i, j :: 0 <= i < j < |later| ==> later[i].start < later[j].start
    ensures AreStretches([Span(0, k)] + later, s)
  {
    forall x: Span
      ensures x == Span(0, k) || x in later <==> IsStretch(s, x)
    {
      FirstOrLater(s, k, later, x);
    }
  }

  lemma CutFirst(s: string, k: nat, later: seq<Span>)
    requires k <= |s|
    ensures Cut(s, [Span(0, k)] + later) == [s[..k]] + Cut(s, later)
  {
    assert s[0..k] == s[..k];
  }

  lemma FirstOrLater(s: string, k: nat, later: seq<Span>, x: Span)
    requires s != "" && !IsWhitespace(s[0]) && k == WordEnd(s)
    requires x.start >= k && x.end >= k ==> (x in later <==> IsStretch(s, x))
    requires x in later ==> x.start >= k && x.end >= k
    ensures x == Span(0, k) || x in later <==> IsStretch(s, x)
  {
    OnlyFirstStretch(s, k, x);
  }

  /** There is only one such list. */
  lemma {:induction false} StretchesAreUnique(a: seq<Span>, b: seq<Span>)
    requires forall x :: x in a <==> x in b
    requires forall i, j :: 0 <= i < j < |a| ==> a[i].start < a[j].start
    requires forall i, j :: 0 <= i < j < |b| ==> b[i].start < b[j].start
    ensures a == b
  {
    assert a != [] ==> a[0] in b;
    assert b != [] ==> b[0] in a;
    if a != [] && b != [] {
      assert a[0] == b[0];
      forall x | x in a[1..] ensures x in b[1..] {
        assert x in b && x != b[0];
      }
      forall x | x in b[1..] ensures x in a[1..] {
        assert x in a && x != a[0];
      }
      StretchesAreUnique(a[1..], b[1..]);
      assert a == [a[0]] + a[1..] && b == [b[0]] + b[1..];
    }
  }

  lemma WordsAreUnique(v: seq<string>, w: seq<string>, s: string)
    requires AreWords(v, s) && AreWords(w, s)
    ensures v == w
  {
    var a :| AreStretches(a, s) && v == Cut(s, a);
    var b :| AreStretches(b, s) && w == Cut(s, b);
    StretchesAreUnique(a, b);
  }
}
