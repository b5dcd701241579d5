// The two scanning passes one after the other, as a scrub applies them
// (crates/observability/src/scrub.rs:62-71): what the first guarantees survives the second.
module ScrubCompose {
  import opened Wrappers
  import opened Laws
  import opened Scrub
  import opened ScrubAssignments

  // Token characters at the front are copied, and what follows is redacted by itself.
  lemma {:induction false} TokenCharsPassThrough(s: string, m: nat)
    requires m <= |SkRedacted(s)| && forall j :: 0 <= j < m ==> IsTokenChar(SkRedacted(s)[j])
    ensures m <= |s| && SkRedacted(s) == s[..m] + SkRedacted(s[m..])
    decreases |s|
  {
    if m > 0 {
      MarkerStarts(s);
      if !IsSecret(s) {
        assert SkRedacted(s)[1..] == SkRedacted(s[1..]);
        TokenCharsPassThrough(s[1..], m - 1);
        Suffixes(s, 1, m - 1);
        assert s[..m] == [s[0]] + s[1..][..m - 1];
        Associative([s[0]], s[1..][..m - 1], SkRedacted(s[m..]));
      }
    } else {
      assert s[0..] == s;
    }
  }

  // Text in which no token can start is copied.
  lemma {:induction false} NoSPassesThrough(s: string, m: nat)
    requires m <= |s| && forall i :: 0 <= i < m ==> s[i] != 's'
    ensures SkRedacted(s) == s[..m] + SkRedacted(s[m..])
    decreases m
  {
    if m > 0 {
      NoSPassesThrough(s[1..], m - 1);
      Suffixes(s, 1, m - 1);
      assert s[..m] == [s[0]] + s[1..][..m - 1];
      Associative([s[0]], s[1..][..m - 1], SkRedacted(s[m..]));
    } else {
      assert s[0..] == s;
    }
  }

  lemma {:induction false} HarmlessPassesThrough(s: string)
    requires Harmless(Value(s))
    ensures Value(SkRedacted(s)) == Value(s)
  {
    var n := ValueLen(s);
    var m := if n < |s| then n + 1 else n;
    assert forall i :: 0 <= i < n ==> s[i] == Value(s)[i];
    assert Value(s) == REDACTED ==> forall i :: 0 <= i < n ==> s[i] == REDACTED[i];
    NoSPassesThrough(s, m);
    var out := SkRedacted(s);
    assert out[..m] == s[..m];
    assert n == |s| ==> s[m..] == "";
    ValueOfCopy(out, s, m);
  }

  // A key at the front of the output was there before, with the same value.
  lemma KeyPassesThrough(keys: seq<string>, prev: Option<char>, s: string)
    requires IsKeyTable(keys) && !Exposes(keys, prev, s)
    ensures !Exposes(keys, prev, SkRedacted(s))
  {
    var out := SkRedacted(s);
    var k := FirstEquals(out);
    if AtBoundary(prev) && IsAssignment(keys, out, k) {
      AssignmentPassesThrough(keys, s, k);
      HarmlessPassesThrough(s[k + 1..]);
      HarmlessIsSafe(keys, prev, out, k);
    }
  }

  lemma AssignmentPassesThrough(keys: seq<string>, s: string, k: nat)
    requires IsKeyTable(keys) && IsAssignment(keys, SkRedacted(s), k)
    ensures IsAssignment(keys, s, k) && FirstEquals(s) == k
    ensures SkRedacted(s)[k + 1..] == SkRedacted(s[k + 1..])
  {
    AssignmentShape(keys, SkRedacted(s), k);
    TokenCharsPassThrough(s, k);
    EqualsPassesThrough(s, k);
    assert s[..k] == SkRedacted(s)[..k];
    AssignmentShape(keys, s, k);
  }

  lemma EqualsPassesThrough(s: string, k: nat)
    requires k <= |s| && SkRedacted(s) == s[..k] + SkRedacted(s[k..])
    requires k < |SkRedacted(s)| && SkRedacted(s)[k] == '='
    ensures k < |s| && s[k] == '=' && SkRedacted(s)[k + 1..] == SkRedacted(s[k + 1..])
  {
    var rest := s[k..];
    assert SkRedacted(rest)[0] == '=';
    MarkerFront(rest);
    Suffixes(s, k, 1);
  }

  lemma MarkerFront(s: string)
    ensures s != "" && IsSecret(s) ==> SkRedacted(s) != "" && SkRedacted(s)[0] == '['
    ensures s == "" ==> SkRedacted(s) == ""
  {
  }

  // Where the output's previous character differs from the input's, a marker ends
  // there, and then no key can start.
  lemma {:induction false} NothingBecomesExposed(keys: seq<string>, now: Option<char>, before: Option<char>,
                                                 s: string, i: nat)
    requires IsKeyTable(keys) && forall j: nat :: !ExposesAt(keys, before, s, j)
    requires now == before || s == "" || !IsTokenChar(s[0])
    ensures !ExposesAt(keys, now, SkRedacted(s), i)
    decreases |s|
  {
    if s != "" {
      if IsSecret(s) {
        var n := 3 + TokenRun(s[3..]);
        var rest := SkRedacted(s[n..]);
        SuffixStaysSafe(keys, before, s, n, Some(s[n - 1]), s[n..]);
        AfterTokens(s, n);
        if i > |REDACTED| {
          NothingBecomesExposed(keys, Some(']'), Some(s[n - 1]), s[n..], i - |REDACTED|);
        }
        MarkerFirst(keys, now, Some(s[n - 1]), s[n..], i);
      } else {
        SuffixStaysSafe(keys, before, s, 1, Some(s[0]), s[1..]);
        if i > 0 {
          NothingBecomesExposed(keys, Some(s[0]), Some(s[0]), s[1..], i - 1);
          ShiftByOne(keys, now, s[0], SkRedacted(s[1..]), i);
        } else {
          FrontStaysSafe(keys, now, before, s);
        }
      }
    }
  }

  lemma AfterTokens(s: string, n: nat)
    requires IsSecret(s) && n == 3 + TokenRun(s[3..])
    ensures s[n..] == "" || !IsTokenChar(s[n..][0])
  {
  }

  lemma SuffixStaysSafe(keys: seq<string>, prev: Option<char>, s: string, n: nat, last: Option<char>, rest: string)
    requires 0 < n <= |s| && last == Some(s[n - 1]) && rest == s[n..]
    requires forall j: nat :: !ExposesAt(keys, prev, s, j)
    ensures forall j: nat :: !ExposesAt(keys, last, rest, j)
  {
    forall j: nat ensures !ExposesAt(keys, last, rest, j) {
      assert !ExposesAt(keys, prev, s, n + j);
      if j <= |s| - n {
        Suffixes(s, n, j);
        assert PrevAt(prev, s, n + j) == PrevAt(last, rest, j);
      }
    }
  }

  lemma FrontStaysSafe(keys: seq<string>, now: Option<char>, before: Option<char>, s: string)
    requires IsKeyTable(keys) && s != "" && !IsSecret(s) && !ExposesAt(keys, before, s, 0)
    requires now == before || !IsTokenChar(s[0])
    ensures !ExposesAt(keys, now, SkRedacted(s), 0)
  {
    var out := SkRedacted(s);
    assert s[0..] == s && out[0..] == out;
    if now == before {
      KeyPassesThrough(keys, now, s);
    } else {
      NotLowerIsSafe(keys, now, out);
    }
  }

  lemma MarkerFirst(keys: seq<string>, now: Option<char>, last: Option<char>, s: string, i: nat)
    requires IsKeyTable(keys) && (s == "" || !IsTokenChar(s[0]))
    requires i > |REDACTED| ==> !ExposesAt(keys, Some(']'), SkRedacted(s), i - |REDACTED|)
    ensures !ExposesAt(keys, now, REDACTED + SkRedacted(s), i)
  {
    var rest := SkRedacted(s);
    var out := REDACTED + rest;
    if i < |REDACTED| {
      assert out[i..][0] == REDACTED[i];
      NotLowerIsSafe(keys, PrevAt(now, out, i), out[i..]);
    } else if i <= |out| {
      assert out[i..] == rest[i - |REDACTED|..];
      if i == |REDACTED| {
        assert rest == "" || rest[0] == s[0];
        NotLowerIsSafe(keys, PrevAt(now, out, i), out[i..]);
      } else {
        assert PrevAt(now, out, i) == PrevAt(Some(']'), rest, i - |REDACTED|);
      }
    }
  }

  /** After both passes no token is left, at every boundary a listed key is followed by nothing or exactly
      the marker, and applying either pass again changes nothing. */
  lemma BothGuaranteesHold(keys: seq<string>, s: string)
    requires IsKeyTable(keys)
    ensures var out := SkRedacted(Redacted(keys, None, s));
      && !Leaks(out)
      && (forall i: nat, key: string :: KeyAt(keys, out, i, key) ==> Value(out[i + |key| + 1..]) in {"", REDACTED})
      && SkRedacted(out) == out && Redacted(keys, None, out) == out
  {
    var text := Redacted(keys, None, s);
    var out := SkRedacted(text);
    NoTokenIsLeft(text, |out|);
    assert out[..|out|] == out;
    OnlyTokensAreTouched(out);
    forall j: nat ensures !ExposesAt(keys, None, text, j) {
      NothingIsExposed(keys, None, s, j);
    }
    forall i: nat ensures !ExposesAt(keys, None, out, i) {
      NothingBecomesExposed(keys, None, None, text, i);
    }
    OnlyCredentialsAreTouched(keys, None, out);
    forall i: nat, key: string | KeyAt(keys, out, i, key) ensures Value(out[i + |key| + 1..]) in {"", REDACTED} {
      KeyMustBeHarmless(keys, out, i, key);
    }
  }
}
