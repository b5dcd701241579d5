// What a score comes to, added up over a whole placement and over all tokens, without the scan that computes it
// (crates/tui/src/fuzzy.rs:68-135).
module FuzzyScores {
  import opened Chars
  import opened Fuzzy

  ghost predicate Ascending(p: seq<nat>, text: string) {
    && (forall i, j :: 0 <= i < j < |p| ==> p[i] < p[j])
    && (forall i :: 0 <= i < |p| ==> p[i] < |text|)
  }

  // ---------------------------------------------------------------- runs

  // As far apart in the text as in the query.
  predicate InOneRun(p: seq<nat>, i: nat, k: nat)
    requires i < |p| && k < |p|
  {
    p[k] + i == p[i] + k
  }

  // The positions before the k-th that stand in one run with it.
  ghost function RunMates(p: seq<nat>, k: nat): set<nat>
    requires k < |p|
  {
    set i: nat | i < k && InOneRun(p, i, k)
  }

  lemma {:induction false} SpreadBetween(p: seq<nat>, i: nat, k: nat)
    requires i <= k < |p| && forall i, j :: 0 <= i < j < |p| ==> p[i] < p[j]
    ensures p[k] - p[i] >= k - i
    decreases k
  {
    if i < k {
      SpreadBetween(p, i, k - 1);
    }
  }

  // The scan's running count is the number of those positions.
  lemma {:induction false} RunLengthCounts(p: seq<nat>, k: nat)
    requires k < |p| && forall i, j :: 0 <= i < j < |p| ==> p[i] < p[j]
    ensures RunLength(p, k) == |RunMates(p, k)|
    decreases k
  {
    if k > 0 && p[k] == p[k - 1] + 1 {
      RunLengthCounts(p, k - 1);
      LongerRun(p, k);
    } else {
      NoRun(p, k);
    }
  }

  lemma LongerRun(p: seq<nat>, k: nat)
    requires 0 < k < |p| && p[k] == p[k - 1] + 1
    ensures RunMates(p, k) == RunMates(p, k - 1) + {k - 1}
  {
  }

  lemma NoRun(p: seq<nat>, k: nat)
    requires k < |p| && forall i, j :: 0 <= i < j < |p| ==> p[i] < p[j]
    requires k > 0 ==> p[k] != p[k - 1] + 1
    ensures RunMates(p, k) == {}
  {
    forall i: nat | i < k ensures !InOneRun(p, i, k) {
      SpreadBetween(p, i, k - 1);
    }
  }

  // The pairs of positions that stand in one run.
  ghost function Pairs(p: seq<nat>, n: nat): set<(nat, nat)>
    requires n <= |p|
  {
    set i: nat, k: nat | i < k < n && InOneRun(p, i, k) :: (i, k)
  }

  ghost function PairsWith(s: set<nat>, k: nat): set<(nat, nat)> {
    set i | i in s :: (i, k)
  }

  lemma {:induction false} AsManyPairs(s: set<nat>, k: nat)
    ensures |PairsWith(s, k)| == |s|
    decreases |s|
  {
    if s != {} {
      var i :| i in s;
      AsManyPairs(s - {i}, k);
      assert PairsWith(s, k) == PairsWith(s - {i}, k) + {(i, k)};
    }
  }

  lemma PairsOfOneMore(p: seq<nat>, n: nat)
    requires n < |p| && forall i, j :: 0 <= i < j < |p| ==> p[i] < p[j]
    ensures |Pairs(p, n + 1)| == |Pairs(p, n)| + RunLength(p, n)
  {
    RunLengthCounts(p, n);
    AsManyPairs(RunMates(p, n), n);
    LastPairs(p, n);
  }

  lemma LastPairs(p: seq<nat>, n: nat)
    requires n < |p|
    ensures Pairs(p, n + 1) == Pairs(p, n) + PairsWith(RunMates(p, n), n)
    ensures |Pairs(p, n + 1)| == |Pairs(p, n)| + |PairsWith(RunMates(p, n), n)|
  {
    var before, last := Pairs(p, n), PairsWith(RunMates(p, n), n);
    assert before !! last;
    assert Pairs(p, n + 1) == before + last;
  }

  // ---------------------------------------------------------------- the whole score

  function Sum(p: seq<nat>, n: nat): nat
    requires n <= |p|
  {
    if n == 0 then 0 else Sum(p, n - 1) + p[n - 1]
  }

  predicate BeginsWord(at: nat, text: string)
    requires at < |text|
  {
    at == 0 || IsWhitespace(text[at - 1]) || text[at - 1] in ['-', '_', '.', '/', ':']
  }

  // The matched characters that begin a word.
  ghost function WordStarts(p: seq<nat>, n: nat, text: string): set<nat>
    requires n <= |p| && forall i :: 0 <= i < n ==> p[i] < |text|
  {
    set k: nat | k < n && BeginsWord(p[k], text)
  }

  // Characters of the text skipped between the first and the last match.
  function Skipped(p: seq<nat>, n: nat): int
    requires n <= |p|
  {
    if n == 0 then 0 else p[n - 1] - p[0] - (n - 1)
  }

  ghost function Total(p: seq<nat>, n: nat, text: string): int
    requires n <= |p| && forall i :: 0 <= i < n ==> p[i] < |text|
  {
    Sum(p, n) + 20 * Skipped(p, n) - 100 * |WordStarts(p, n, text)| - 50 * |Pairs(p, n)|
  }

  lemma TotalOfOneMore(p: seq<nat>, n: nat, text: string)
    requires Ascending(p, text) && n < |p|
    ensures Total(p, n + 1, text) == Total(p, n, text) + PositionScore(p, n, text)
  {
    PairsOfOneMore(p, n);
    WordStartsOfOneMore(p, n, text);
  }

  lemma WordStartsOfOneMore(p: seq<nat>, n: nat, text: string)
    requires n < |p| && forall i :: 0 <= i <= n ==> p[i] < |text|
    ensures |WordStarts(p, n + 1, text)|
            == |WordStarts(p, n, text)| + (if BeginsWord(p[n], text) then 1 else 0)
  {
    var starts, more := WordStarts(p, n, text), WordStarts(p, n + 1, text);
    if BeginsWord(p[n], text) {
      assert more == starts + {n};
    } else {
      assert more == starts;
    }
  }

  /** A placement costs a tenth of every position and two for every character skipped inside it; it earns ten for
      every word it begins and five for every pair of its characters that stand in one run. */
  lemma {:induction false} ScoreIsTheTotal(p: seq<nat>, n: nat, text: string)
    requires Ascending(p, text) && n <= |p|
    ensures EmbeddingScore(p, n, text) == Total(p, n, text)
    decreases n
  {
    if n > 0 {
      ScoreIsTheTotal(p, n - 1, text);
      TotalOfOneMore(p, n - 1, text);
    } else {
      assert Pairs(p, 0) == {} && WordStarts(p, 0, text) == {};
    }
  }

  /** The score of a token: that of the earliest placement of what it was found as, a hundred less for the whole
      text, and five more if its letters and digits had to be swapped, which is tried only when it is not found
      as it is written. */
  lemma TokenScoreIsTheTotal(token: string, text: string, lower: Lower, query: string, p: seq<nat>)
    requires lower(token) != "" && IsEarliest(p, query, lower(text))
    requires || query == lower(token)
             || (!IsSubsequence(lower(token), lower(text))
                 && exists a, b :: TwoBlocks(lower(token), a, b) && query == b + a)
    ensures TokenMatches(token, text, lower)
    ensures TokenScore(token, text, lower)
            == Total(p, |p|, lower(text)) - (if query == lower(text) then 1000 else 0)
               + (if query == lower(token) then 0 else 50)
  {
    assert IsSubsequence(query, lower(text));
    if query != lower(token) {
      SwapIsExact(lower(token), query);
    }
    ScoreIsOfTheEarliest(p, query, lower(text));
    ScoreIsTheTotal(p, |p|, lower(text));
  }

  /** The scores of all tokens are added up. */
  lemma {:induction false} TotalsAddUp(a: seq<string>, b: seq<string>, text: string, lower: Lower)
    requires AllMatch(a + b, text, lower)
    ensures AllMatch(a, text, lower) && AllMatch(b, text, lower)
    ensures TotalScore(a + b, |a + b|, text, lower)
            == TotalScore(a, |a|, text, lower) + TotalScore(b, |b|, text, lower)
    decreases |b|
  {
    PartsMatch(a, b, text, lower);
    if b == [] {
      assert a + b == a;
    } else {
      var fewer, last := b[..|b| - 1], b[|b| - 1];
      assert a + b == (a + fewer) + [last] && b == fewer + [last];
      PartsMatch(a + fewer, [last], text, lower);
      TotalsAddUp(a, fewer, text, lower);
      TotalOfNext(a + fewer, last, text, lower);
      TotalOfNext(fewer, last, text, lower);
    }
  }

  lemma TotalOfNext(a: seq<string>, token: string, text: string, lower: Lower)
    requires AllMatch(a + [token], text, lower)
    ensures AllMatch(a, text, lower) && TokenMatches(token, text, lower)
    ensures TotalScore(a + [token], |a| + 1, text, lower)
            == TotalScore(a, |a|, text, lower) + TokenScore(token, text, lower)
  {
    PartsMatch(a, [token], text, lower);
    TotalOfPart(a, [token], |a|, text, lower);
    assert [token][0] == token;
  }

  lemma PartsMatch(a: seq<string>, b: seq<string>, text: string, lower: Lower)
    requires AllMatch(a + b, text, lower)
    ensures AllMatch(a, text, lower) && AllMatch(b, text, lower)
  {
    forall i | 0 <= i < |a| ensures TokenMatches(a[i], text, lower) {
      assert (a + b)[i] == a[i];
    }
    forall i | 0 <= i < |b| ensures TokenMatches(b[i], text, lower) {
      assert (a + b)[|a| + i] == b[i];
    }
  }

  lemma {:induction false} TotalOfPart(a: seq<string>, b: seq<string>, n: nat, text: string, lower: Lower)
    requires AllMatch(a + b, text, lower) && AllMatch(a, text, lower) && n <= |a|
    ensures TotalScore(a + b, n, text, lower) == TotalScore(a, n, text, lower)
    decreases n
  {
    if n > 0 {
      TotalOfPart(a, b, n - 1, text, lower);
    }
  }

  lemma TotalOfOne(token: string, text: string, lower: Lower)
    requires TokenMatches(token, text, lower)
    ensures TotalScore([token], 1, text, lower) == TokenScore(token, text, lower)
  {
    assert TotalScore([token], 0, text, lower) == 0;
  }
}
