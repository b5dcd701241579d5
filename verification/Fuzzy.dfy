// Subsequence matching and ranking in the terminal interface
// (crates/tui/src/fuzzy.rs). Scores are kept in tenths, so that they are exact.
module Fuzzy {
  import opened Wrappers
  import opened Laws
  import opened Chars
  import opened FuzzyWords

  datatype FuzzyMatch = FuzzyMatch(matches: bool, score: int)

  const NO_MATCH := FuzzyMatch(false, 0)

  predicate IsBoundary(c: char) {
    IsWhitespace(c) || c in {'-', '_', '.', '/', ':'}
  }

  // ---------------------------------------------------------------- embeddings

  // Where the characters of the query may sit in the text.
  ghost predicate IsEmbedding(p: seq<nat>, query: string, text: string) {
    && |p| == |query|
    && (forall i, j :: 0 <= i < j < |p| ==> p[i] < p[j])
    && (forall i :: 0 <= i < |p| ==> p[i] < |text| && text[p[i]] == query[i])
  }

  ghost predicate IsSubsequence(query: string, text: string) {
    exists p :: IsEmbedding(p, query, text)
  }

  // The embedding that puts every character as early as any embedding does.
  ghost predicate IsEarliest(p: seq<nat>, query: string, text: string) {
    && IsEmbedding(p, query, text)
    && forall e, i :: IsEmbedding(e, query, text) && 0 <= i < |p| ==> p[i] <= e[i]
  }

  lemma EarliestIsUnique(p: seq<nat>, r: seq<nat>, query: string, text: string)
    requires IsEarliest(p, query, text) && IsEarliest(r, query, text)
    ensures p == r
  {
    assert forall i :: 0 <= i < |p| ==> p[i] <= r[i] && r[i] <= p[i];
  }

  // ---------------------------------------------------------------- scores

  // How many characters before the k-th sit right before it in one run.
  function RunLength(p: seq<nat>, k: nat): nat
    requires k < |p|
  {
    if k > 0 && p[k] == p[k - 1] + 1 then RunLength(p, k - 1) + 1 else 0
  }

  function Gap(before: int, after: int): int {
    after - before - 1
  }

  // Lower is better: runs and word starts earn, gaps and late positions cost.
  function PositionScore(p: seq<nat>, k: nat, text: string): int
    requires k < |p| && p[k] < |text|
  {
    (if RunLength(p, k) > 0 then -50 * RunLength(p, k) else if k > 0 then 20 * Gap(p[k - 1], p[k]) else 0)
    + (if p[k] == 0 || IsBoundary(text[p[k] - 1]) then -100 else 0)
    + p[k]
  }

  function EmbeddingScore(p: seq<nat>, n: nat, text: string): int
    requires n <= |p| && forall i :: 0 <= i < n ==> p[i] < |text|
  {
    if n == 0 then 0 else EmbeddingScore(p, n - 1, text) + PositionScore(p, n - 1, text)
  }

  // The leftmost scan for what follows the first k characters of the query.
  function Greedy(query: string, k: nat, text: string, index: nat): (p: seq<nat>)
    requires k <= |query| && index <= |text|
    ensures k + |p| <= |query| && forall i :: 0 <= i < |p| ==> p[i] < |text|
    decreases |text| - index
  {
    if k == |query| || index == |text| then []
    else if text[index] == query[k] then [index] + Greedy(query, k + 1, text, index + 1)
    else Greedy(query, k, text, index + 1)
  }

  function ScoreOf(query: string, text: string): int {
    if query == "" then 0
    else
      var p := Greedy(query, 0, text, 0);
      EmbeddingScore(p, |p|, text) - (if query == text then 1000 else 0)
  }

  // ---------------------------------------------------------------- one query

  // The greedy scan after `index` characters of the text.
  ghost predicate Scanned(p: seq<nat>, index: nat, query: string, text: string) {
    && |p| <= |query|
    && (forall i, j :: 0 <= i < j < |p| ==> p[i] < p[j])
    && (forall i :: 0 <= i < |p| ==> p[i] < index && p[i] < |text| && text[p[i]] == query[i])
    && (forall e, i :: IsEmbedding(e, query, text) && 0 <= i < |p| ==> p[i] <= e[i])
    && (forall e :: IsEmbedding(e, query, text) && |p| < |query| ==> index <= e[|p|])
  }

  lemma NoRoom(query: string, text: string)
    requires |query| > |text|
    ensures !IsSubsequence(query, text)
  {
    forall p | IsEmbedding(p, query, text) ensures false {
      Spread(p, |p| - 1, query, text);
    }
  }

  lemma {:induction false} Spread(p: seq<nat>, k: nat, query: string, text: string)
    requires IsEmbedding(p, query, text) && k < |p|
    ensures p[k] >= k
  {
    if k > 0 {
      Spread(p, k - 1, query, text);
    }
  }

  lemma TakesThis(p: seq<nat>, index: nat, query: string, text: string)
    requires Scanned(p, index, query, text) && |p| < |query| && index < |text|
    requires text[index] == query[|p|]
    ensures Scanned(p + [index], index + 1, query, text)
  {
    var q := p + [index];
    forall e | IsEmbedding(e, query, text) && |q| < |query| ensures index + 1 <= e[|q|] {
      assert e[|p|] < e[|p| + 1];
    }
  }

  lemma LooksFurther(p: seq<nat>, index: nat, query: string, text: string)
    requires Scanned(p, index, query, text) && |p| < |query| && index < |text|
    requires text[index] != query[|p|]
    ensures Scanned(p, index + 1, query, text)
  {
  }

  lemma {:induction false} PrefixScores(p: seq<nat>, next: nat, n: nat, text: string)
    requires n <= |p| && forall i :: 0 <= i < n ==> p[i] < |text|
    ensures EmbeddingScore(p + [next], n, text) == EmbeddingScore(p, n, text)
    decreases n
  {
    if n > 0 {
      PrefixScores(p, next, n - 1, text);
      PrefixRuns(p, next, n - 1);
    }
  }

  lemma {:induction false} PrefixRuns(p: seq<nat>, next: nat, k: nat)
    requires k < |p|
    ensures RunLength(p + [next], k) == RunLength(p, k)
    decreases k
  {
    if k > 0 {
      PrefixRuns(p, next, k - 1);
    }
  }

  // The scan's own variables.
  datatype Scan = Scan(queryIndex: nat, score: int, last: Option<nat>, consecutive: nat)

  function Matched(s: Scan, index: nat, text: string): Scan
    requires index < |text| && (s.last.Some? ==> s.last.value < index)
  {
    var adjacent := index > 0 && s.last == Some(index - 1);
    var consecutive := if adjacent then s.consecutive + 1 else 0;
    var spread := if adjacent then -50 * consecutive else if s.last.Some? then 20 * Gap(s.last.value, index) else 0;
    var boundary := if index == 0 || IsBoundary(text[index - 1]) then -100 else 0;
    Scan(s.queryIndex + 1, s.score + spread + boundary + index, Some(index), consecutive)
  }

  ghost predicate Tracks(s: Scan, p: seq<nat>, text: string) {
    && s.queryIndex == |p|
    && (forall i :: 0 <= i < |p| ==> p[i] < |text|)
    && s.last == (if p == [] then None else Some(p[|p| - 1]))
    && (p != [] ==> s.consecutive == RunLength(p, |p| - 1))
    && s.score == EmbeddingScore(p, |p|, text)
  }

  lemma MatchedTracks(s: Scan, p: seq<nat>, index: nat, text: string)
    requires Tracks(s, p, text) && index < |text| && (p != [] ==> p[|p| - 1] < index)
    ensures Tracks(Matched(s, index, text), p + [index], text)
  {
    PrefixScores(p, index, |p|, text);
    if p != [] {
      PrefixRuns(p, index, |p| - 1);
    }
  }

  // The scan to the end of the query or of the text.
  method ScanText(query: string, text: string) returns (s: Scan)
    ensures Tracks(s, Greedy(query, 0, text, 0), text)
  {
    s := Scan(0, 0, None, 0);
    ghost var p: seq<nat> := [];
    var index := 0;
    while index < |text| && s.queryIndex < |query|
      invariant index <= |text| && Tracks(s, p, text) && |p| <= |query|
      invariant p != [] ==> p[|p| - 1] < index
      invariant p + Greedy(query, |p|, text, index) == Greedy(query, 0, text, 0)
    {
      if text[index] == query[s.queryIndex] {
        MatchedTracks(s, p, index, text);
        Associative(p, [index], Greedy(query, |p| + 1, text, index + 1));
        s := Matched(s, index, text);
        p := p + [index];
      }
      index := index + 1;
    }
    assert p == Greedy(query, 0, text, 0);
  }

  lemma ScanEnds(p: seq<nat>, index: nat, query: string, text: string)
    requires Scanned(p, index, query, text)
    requires |p| < |query| ==> index >= |text|
    ensures |p| < |query| ==> !IsSubsequence(query, text)
    ensures |p| == |query| ==> IsEarliest(p, query, text)
  {
    if |p| < |query| {
      forall e | IsEmbedding(e, query, text) ensures false {
        NextIsAhead(p, index, e, query, text);
      }
    }
  }

  lemma NextIsAhead(p: seq<nat>, index: nat, e: seq<nat>, query: string, text: string)
    requires Scanned(p, index, query, text) && |p| < |query| && IsEmbedding(e, query, text)
    ensures index <= e[|p|] < |text|
  {
  }

  ghost predicate Decides(q: seq<nat>, query: string, text: string) {
    if |q| == |query| then IsEarliest(q, query, text) else !IsSubsequence(query, text)
  }

  lemma ScanDecides(p: seq<nat>, index: nat, query: string, text: string)
    requires Scanned(p, index, query, text) && (index == |text| || |p| == |query|)
    ensures Decides(p, query, text)
  {
    ScanEnds(p, index, query, text);
  }

  lemma {:induction false} ScanFinds(p: seq<nat>, index: nat, q: seq<nat>, query: string, text: string)
    requires Scanned(p, index, query, text) && |p| <= |query| && index <= |text|
    requires q == p + Greedy(query, |p|, text, index)
    ensures Decides(q, query, text)
    decreases |text| - index
  {
    if index == |text| || |p| == |query| {
      ScanDecides(p, index, query, text);
      assert q == p;
    } else if text[index] == query[|p|] {
      TakesThis(p, index, query, text);
      Associative(p, [index], Greedy(query, |p| + 1, text, index + 1));
      ScanFinds(p + [index], index + 1, q, query, text);
    } else {
      LooksFurther(p, index, query, text);
      ScanFinds(p, index + 1, q, query, text);
    }
  }

  // The leftmost scan places the whole query exactly when there is an embedding,
  // and what it yields is then the earliest one.
  lemma GreedyIsComplete(query: string, text: string)
    ensures |Greedy(query, 0, text, 0)| == |query| <==> IsSubsequence(query, text)
    ensures IsSubsequence(query, text) ==> IsEarliest(Greedy(query, 0, text, 0), query, text)
  {
    var q := Greedy(query, 0, text, 0);
    assert q == [] + q;
    ScanFinds([], 0, q, query, text);
  }

  // The score does not depend on how the scan goes about it: it is that of the
  // earliest embedding, of which there is only one.
  lemma ScoreIsOfTheEarliest(p: seq<nat>, query: string, text: string)
    requires query != "" && IsEarliest(p, query, text)
    ensures ScoreOf(query, text) == EmbeddingScore(p, |p|, text) - (if query == text then 1000 else 0)
  {
    assert IsSubsequence(query, text);
    GreedyIsComplete(query, text);
    EarliestIsUnique(p, Greedy(query, 0, text, 0), query, text);
  }

  // It finds an embedding whenever there is one, and then scores the earliest.
  method MatchQuery(query: string, text: string) returns (r: FuzzyMatch)
    ensures r.matches <==> IsSubsequence(query, text)
    ensures r.matches ==> r.score == ScoreOf(query, text)
    ensures !r.matches ==> r == NO_MATCH
  {
    if query == "" {
      assert IsEmbedding([], query, text);
      return FuzzyMatch(true, 0);
    }
    if |query| > |text| {
      NoRoom(query, text);
      return NO_MATCH;
    }
    GreedyIsComplete(query, text);
    var s := ScanText(query, text);
    if s.queryIndex < |query| {
      return NO_MATCH;
    }
    r := FuzzyMatch(true, if query == text then s.score - 1000 else s.score);
  }

  // ---------------------------------------------------------------- swapped letters and digits

  predicate AllDigits(s: string) {
    forall i :: 0 <= i < |s| ==> IsDigit(s[i])
  }

  predicate AllLetters(s: string) {
    forall i :: 0 <= i < |s| ==> IsLetter(s[i])
  }

  function FirstDigit(s: string): (k: nat)
    ensures k <= |s| && (k < |s| ==> IsDigit(s[k])) && forall i :: 0 <= i < k ==> !IsDigit(s[i])
  {
    if s == "" || IsDigit(s[0]) then 0 else 1 + FirstDigit(s[1..])
  }

  function FirstLetter(s: string): (k: nat)
    ensures k <= |s| && (k < |s| ==> IsLetter(s[k])) && forall i :: 0 <= i < k ==> !IsLetter(s[i])
  {
    if s == "" || IsLetter(s[0]) then 0 else 1 + FirstLetter(s[1..])
  }

  function SwappedQuery(query: string): Option<string> {
    var d := FirstDigit(query);
    if 0 < d < |query| && AllLetters(query[..d]) && AllDigits(query[d..]) then Some(query[d..] + query[..d])
    else
      var l := FirstLetter(query);
      if 0 < l < |query| && AllDigits(query[..l]) && AllLetters(query[l..]) then Some(query[l..] + query[..l])
      else None
  }

  // One block of letters and one of digits, in either order.
  ghost predicate TwoBlocks(query: string, a: string, b: string) {
    query == a + b && a != "" && b != "" && ((AllLetters(a) && AllDigits(b)) || (AllDigits(a) && AllLetters(b)))
  }

  // Exactly the queries made of two such blocks are swapped.
  lemma SwapIsExact(query: string, swapped: string)
    ensures SwappedQuery(query) == Some(swapped) <==> exists a, b :: TwoBlocks(query, a, b) && swapped == b + a
  {
    if SwappedQuery(query) == Some(swapped) {
      var d, l := FirstDigit(query), FirstLetter(query);
      if 0 < d < |query| && AllLetters(query[..d]) && AllDigits(query[d..]) {
        assert TwoBlocks(query, query[..d], query[d..]);
      } else {
        assert TwoBlocks(query, query[..l], query[l..]);
      }
    }
    if a, b :| TwoBlocks(query, a, b) && swapped == b + a {
      BlocksSwap(query, a, b);
    }
  }

  lemma BlocksSwap(query: string, a: string, b: string)
    requires TwoBlocks(query, a, b)
    ensures SwappedQuery(query) == Some(b + a)
  {
    var n := |a|;
    assert a == query[..n] && b == query[n..];
    assert forall i :: 0 <= i < n ==> query[i] == a[i];
    assert query[n] == b[0] && query[0] == a[0];
    if AllLetters(a) {
      assert FirstDigit(query) == n;
    } else {
      assert FirstDigit(query) == 0 by { assert IsDigit(query[0]); }
      assert FirstLetter(query) == n;
    }
  }

  lemma SwapTwice(query: string)
    requires SwappedQuery(query).Some?
    ensures SwappedQuery(SwappedQuery(query).value) == Some(query)
  {
    var swapped := SwappedQuery(query).value;
    SwapIsExact(query, swapped);
    var a, b :| TwoBlocks(query, a, b) && swapped == b + a;
    assert TwoBlocks(swapped, b, a);
    BlocksSwap(swapped, b, a);
  }

  // ---------------------------------------------------------------- one token

  // The lower-casing of the standard library, which is not modelled.
  type Lower = string -> string

  ghost predicate TokenMatches(token: string, text: string, lower: Lower) {
    var query := lower(token);
    || IsSubsequence(query, lower(text))
    || (SwappedQuery(query).Some? && IsSubsequence(SwappedQuery(query).value, lower(text)))
  }

  ghost function TokenScore(token: string, text: string, lower: Lower): int
    requires TokenMatches(token, text, lower)
  {
    var query := lower(token);
    if IsSubsequence(query, lower(text)) then ScoreOf(query, lower(text))
    else ScoreOf(SwappedQuery(query).value, lower(text)) + 50
  }

  method MatchToken(token: string, text: string, lower: Lower) returns (r: FuzzyMatch)
    ensures r.matches <==> TokenMatches(token, text, lower)
    ensures r.matches ==> r.score == TokenScore(token, text, lower)
    ensures !r.matches ==> r == NO_MATCH
  {
    var query := lower(token);
    var primary := MatchQuery(query, lower(text));
    if primary.matches {
      return primary;
    }
    var swapped := SwappedQuery(query);
    if swapped.None? {
      return primary;
    }
    r := MatchQuery(swapped.value, lower(text));
    if !r.matches {
      return primary;
    }
    r := FuzzyMatch(true, r.score + 50);
  }

  // Writing the letters and the digits of a query the other way round finds the
  // same texts.
  lemma SwappedTokensMatchAlike(token: string, other: string, text: string, lower: Lower)
    requires SwappedQuery(lower(token)) == Some(lower(other))
    ensures TokenMatches(token, text, lower) <==> TokenMatches(other, text, lower)
  {
    SwapTwice(lower(token));
  }

  // ---------------------------------------------------------------- filtering

  ghost predicate AllMatch(tokens: seq<string>, text: string, lower: Lower) {
    forall i :: 0 <= i < |tokens| ==> TokenMatches(tokens[i], text, lower)
  }

  // What the first n tokens add up to.
  ghost function TotalScore(tokens: seq<string>, n: nat, text: string, lower: Lower): int
    requires n <= |tokens| && forall i :: 0 <= i < n ==> TokenMatches(tokens[i], text, lower)
  {
    if n == 0 then 0
    else TotalScore(tokens, n - 1, text, lower) + TokenScore(tokens[n - 1], text, lower)
  }

  datatype Ranked = Ranked(score: int, index: nat)

  predicate Before(a: Ranked, b: Ranked) {
    a.score < b.score || (a.score == b.score && a.index < b.index)
  }

  predicate Ordered(s: seq<Ranked>) {
    forall i, j :: 0 <= i < j < |s| ==> Before(s[i], s[j])
  }

  // Puts one more result where the order wants it.
  function Insert(s: seq<Ranked>, x: Ranked): (r: seq<Ranked>)
    requires Ordered(s) && forall i :: 0 <= i < |s| ==> s[i].index != x.index
    ensures Ordered(r) && (forall y :: y in r <==> y in s || y == x)
    ensures |r| == |s| + 1
  {
    if s == [] || Before(x, s[0]) then [x] + s
    else
      var rest := Insert(s[1..], x);
      assert forall y :: y in rest ==> Before(s[0], y);
      [s[0]] + rest
  }

  // The sort, by score and then by index.
  function Sorted(s: seq<Ranked>): (r: seq<Ranked>)
    requires DistinctIndices(s)
    ensures Ordered(r) && |r| == |s| && forall y :: y in r <==> y in s
  {
    if s == [] then []
    else
      var rest := Sorted(s[1..]);
      assert s == [s[0]] + s[1..];
      assert forall i :: 0 <= i < |rest| ==> rest[i] in s[1..];
      Insert(rest, s[0])
  }

  predicate DistinctIndices(s: seq<Ranked>) {
    forall i, j :: 0 <= i < j < |s| ==> s[i].index != s[j].index
  }

  ghost predicate Candidate(index: nat, tokens: seq<string>, texts: seq<string>, lower: Lower) {
    index < |texts| && AllMatch(tokens, texts[index], lower)
  }

  ghost function Rank(index: nat, tokens: seq<string>, texts: seq<string>, lower: Lower): Ranked
    requires Candidate(index, tokens, texts, lower)
  {
    Ranked(TotalScore(tokens, |tokens|, texts[index], lower), index)
  }

  // The indices of the matching texts, best score first, ties in the order given.
  ghost predicate IsRanking(r: seq<nat>, tokens: seq<string>, texts: seq<string>, lower: Lower) {
    && (forall k :: 0 <= k < |r| ==> Candidate(r[k], tokens, texts, lower))
    && (forall i: nat :: Candidate(i, tokens, texts, lower) ==> i in r)
    && (forall i, j :: 0 <= i < j < |r| ==>
          var a := TotalScore(tokens, |tokens|, texts[r[i]], lower);
          var b := TotalScore(tokens, |tokens|, texts[r[j]], lower);
          a < b || (a == b && r[i] < r[j]))
  }

  method MatchAll(tokens: seq<string>, text: string, lower: Lower) returns (r: FuzzyMatch)
    ensures r.matches <==> AllMatch(tokens, text, lower)
    ensures r.matches ==> r.score == TotalScore(tokens, |tokens|, text, lower)
  {
    var total := 0;
    for i := 0 to |tokens|
      invariant forall j :: 0 <= j < i ==> TokenMatches(tokens[j], text, lower)
      invariant total == TotalScore(tokens, i, text, lower)
    {
      var matched := MatchToken(tokens[i], text, lower);
      if !matched.matches {
        return NO_MATCH;
      }
      total := total + matched.score;
    }
    r := FuzzyMatch(true, total);
  }

  method FuzzyFilterIndices(texts: seq<string>, query: string, lower: Lower) returns (r: seq<nat>)
    ensures (forall i :: 0 <= i < |query| ==> IsWhitespace(query[i])) ==> r == seq(|texts|, i => i)
    ensures exists tokens :: AreWords(tokens, query) && IsRanking(r, tokens, texts, lower)
  {
    var tokens := Words(query);
    ghost var spans := WordsAreTheStretches(query);
    assert AreWords(tokens, query);
    if tokens == [] {
      r := seq(|texts|, i => i);
      EverythingRanks(texts, lower);
      return;
    }
    var results: seq<Ranked> := [];
    for index := 0 to |texts|
      invariant Collected(results, index, tokens, texts, lower)
    {
      var matched := MatchAll(tokens, texts[index], lower);
      CollectsNext(results, index, tokens, texts, lower);
      if matched.matches {
        results := results + [Ranked(matched.score, index)];
      }
    }
    CollectedAreDistinct(results, tokens, texts, lower);
    r := Indices(Sorted(results));
    RankingOf(results, tokens, texts, lower);
  }

  lemma EverythingRanks(texts: seq<string>, lower: Lower)
    ensures IsRanking(seq(|texts|, i => i), [], texts, lower)
  {
    var r: seq<nat> := seq(|texts|, i => i);
    forall i: nat | Candidate(i, [], texts, lower) ensures i in r {
      assert r[i] == i;
    }
  }

  ghost predicate Collected(results: seq<Ranked>, n: nat, tokens: seq<string>, texts: seq<string>, lower: Lower) {
    && (forall i, j :: 0 <= i < j < |results| ==> results[i].index < results[j].index)
    && (forall i :: 0 <= i < |results| ==>
          && results[i].index < n && Candidate(results[i].index, tokens, texts, lower)
          && results[i] == Rank(results[i].index, tokens, texts, lower))
    && (forall i: nat :: i < n && Candidate(i, tokens, texts, lower) ==> Rank(i, tokens, texts, lower) in results)
  }

  lemma CollectsNext(results: seq<Ranked>, n: nat, tokens: seq<string>, texts: seq<string>, lower: Lower)
    requires Collected(results, n, tokens, texts, lower)
    ensures !Candidate(n, tokens, texts, lower) ==> Collected(results, n + 1, tokens, texts, lower)
    ensures Candidate(n, tokens, texts, lower) ==>
              Collected(results + [Rank(n, tokens, texts, lower)], n + 1, tokens, texts, lower)
  {
    if Candidate(n, tokens, texts, lower) {
      var next := results + [Rank(n, tokens, texts, lower)];
      assert next[|results|] == Rank(n, tokens, texts, lower);
      forall i: nat | i < n + 1 && Candidate(i, tokens, texts, lower) ensures Rank(i, tokens, texts, lower) in next {
      }
    }
  }

  lemma CollectedAreDistinct(results: seq<Ranked>, tokens: seq<string>, texts: seq<string>, lower: Lower)
    requires Collected(results, |texts|, tokens, texts, lower)
    ensures DistinctIndices(results)
  {
  }

  function Indices(s: seq<Ranked>): (r: seq<nat>)
    ensures |r| == |s| && forall i :: 0 <= i < |s| ==> r[i] == s[i].index
  {
    seq(|s|, i requires 0 <= i < |s| => s[i].index)
  }

  lemma RankingOf(results: seq<Ranked>, tokens: seq<string>, texts: seq<string>, lower: Lower)
    requires Collected(results, |texts|, tokens, texts, lower) && DistinctIndices(results)
    ensures IsRanking(Indices(Sorted(results)), tokens, texts, lower)
  {
    var sorted := Sorted(results);
    var r := Indices(sorted);
    forall k | 0 <= k < |sorted|
      ensures Candidate(r[k], tokens, texts, lower) && sorted[k] == Rank(r[k], tokens, texts, lower)
    {
      assert sorted[k] in results;
    }
    forall i: nat | Candidate(i, tokens, texts, lower) ensures i in r {
      var x := Rank(i, tokens, texts, lower);
      assert x in sorted;
      var k :| 0 <= k < |sorted| && sorted[k] == x;
      assert r[k] == i;
    }
  }

  // There is only one such ranking.
  lemma RankingIsUnique(r: seq<nat>, s: seq<nat>, tokens: seq<string>, texts: seq<string>, lower: Lower)
    requires IsRanking(r, tokens, texts, lower) && IsRanking(s, tokens, texts, lower)
    ensures r == s
  {
    var a, b := Ranks(r, tokens, texts, lower), Ranks(s, tokens, texts, lower);
    SameRanks(r, s, tokens, texts, lower);
    SameRanks(s, r, tokens, texts, lower);
    OrderedIsUnique(a, b);
    assert forall k :: 0 <= k < |r| ==> a[k].index == r[k] && b[k].index == s[k];
  }

  ghost function Ranks(r: seq<nat>, tokens: seq<string>, texts: seq<string>, lower: Lower): (a: seq<Ranked>)
    requires IsRanking(r, tokens, texts, lower)
    ensures |a| == |r| && Ordered(a)
    ensures forall k :: 0 <= k < |r| ==> a[k] == Rank(r[k], tokens, texts, lower)
  {
    seq(|r|, k requires 0 <= k < |r| && Candidate(r[k], tokens, texts, lower) => Rank(r[k], tokens, texts, lower))
  }

  lemma SameRanks(r: seq<nat>, s: seq<nat>, tokens: seq<string>, texts: seq<string>, lower: Lower)
    requires IsRanking(r, tokens, texts, lower) && IsRanking(s, tokens, texts, lower)
    ensures forall x :: x in Ranks(r, tokens, texts, lower) ==> x in Ranks(s, tokens, texts, lower)
  {
    var a, b := Ranks(r, tokens, texts, lower), Ranks(s, tokens, texts, lower);
    forall k | 0 <= k < |a| ensures a[k] in b {
      assert Candidate(r[k], tokens, texts, lower);
      var m :| 0 <= m < |s| && s[m] == r[k];
      assert b[m] == a[k];
    }
  }

  lemma {:induction false} OrderedIsUnique(a: seq<Ranked>, b: seq<Ranked>)
    requires Ordered(a) && Ordered(b) && forall x :: x in a <==> x in b
    ensures a == b
  {
    assert a != [] ==> a[0] in b;
    assert b != [] ==> b[0] in a;
    if a != [] && b != [] {
      assert a[0] in b && b[0] in a;
      assert a[0] == b[0];
      forall x | x in a[1..] ensures x in b[1..] {
        assert x in b && x != b[0];
      }
      forall x | x in b[1..] ensures x in a[1..] {
        assert x in a && x != a[0];
      }
      OrderedIsUnique(a[1..], b[1..]);
      assert a == [a[0]] + a[1..] && b == [b[0]] + b[1..];
    }
  }
}
