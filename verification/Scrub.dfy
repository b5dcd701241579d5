// The scanning redactors and the bounded output (crates/observability/src/scrub.rs).
// Every byte they test is ASCII, so they are modelled on characters.
module Scrub {
  import opened Laws
  import opened Chars

  const REDACTED: string := "[REDACTED]"

  predicate IsTokenChar(c: char) {
    IsAlphanumeric(c) || c in {'-', '_', '.'}
  }

  // ---------------------------------------------------------------- sk- tokens

  const MIN_TOKEN: nat := 20

  predicate StartsSk(s: string) {
    |s| >= 3 && s[0] == 's' && s[1] == 'k' && s[2] == '-'
  }

  // How many token characters a text starts with.
  function TokenRun(s: string): (k: nat)
    ensures k <= |s| && (forall i :: 0 <= i < k ==> IsTokenChar(s[i])) && (k < |s| ==> !IsTokenChar(s[k]))
  {
    if s == "" || !IsTokenChar(s[0]) then 0 else 1 + TokenRun(s[1..])
  }

  predicate IsSecret(s: string) {
    StartsSk(s) && TokenRun(s[3..]) >= MIN_TOKEN
  }

  // Somewhere the marker of a key is followed by enough token characters.
  predicate LeaksAt(s: string, i: nat) {
    && i + 3 + MIN_TOKEN <= |s| && s[i] == 's' && s[i + 1] == 'k' && s[i + 2] == '-'
    && forall j :: i + 3 <= j < i + 3 + MIN_TOKEN ==> IsTokenChar(s[j])
  }

  ghost predicate Leaks(s: string) {
    exists i :: LeaksAt(s, i)
  }

  function SkRedacted(s: string): string
    decreases |s|
  {
    if s == "" then ""
    else if IsSecret(s) then REDACTED + SkRedacted(s[3 + TokenRun(s[3..])..])
    else [s[0]] + SkRedacted(s[1..])
  }

  method RedactSkTokens(input: string) returns (output: string)
    ensures output == SkRedacted(input)
  {
    output := "";
    var cursor := 0;
    while cursor < |input|
      invariant cursor <= |input| && output + SkRedacted(input[cursor..]) == SkRedacted(input)
    {
      if StartsSk(input[cursor..]) {
        var end := SkipToken(input, cursor + 3);
        Suffixes(input, cursor, 3);
        Suffixes(input, cursor, end - cursor);
        if end - cursor - 3 >= MIN_TOKEN {
          Associative(output, REDACTED, SkRedacted(input[end..]));
          output := output + REDACTED;
          cursor := end;
          continue;
        }
      }
      Suffixes(input, cursor, 1);
      Associative(output, [input[cursor]], SkRedacted(input[cursor + 1..]));
      output := output + [input[cursor]];
      cursor := cursor + 1;
    }
  }

  // The inner loop: past the token characters.
  method SkipToken(input: string, from: nat) returns (end: nat)
    requires from <= |input|
    ensures from <= end <= |input| && end == from + TokenRun(input[from..])
  {
    end := from;
    while end < |input| && IsTokenChar(input[end])
      invariant from <= end <= |input|
      invariant forall j :: from <= j < end ==> IsTokenChar(input[j])
    {
      end := end + 1;
    }
    TokenRunIs(input, from, end);
  }

  lemma TokenRunCovers(s: string, k: nat)
    requires k <= |s| && forall i :: 0 <= i < k ==> IsTokenChar(s[i])
    ensures TokenRun(s) >= k
  {
  }

  lemma TokenRunIs(s: string, from: nat, end: nat)
    requires from <= end <= |s| && (forall j :: from <= j < end ==> IsTokenChar(s[j]))
    requires end < |s| ==> !IsTokenChar(s[end])
    ensures TokenRun(s[from..]) == end - from
  {
    TokenRunCovers(s[from..], end - from);
  }

  lemma SecretLeaks(s: string)
    ensures IsSecret(s) <==> LeaksAt(s, 0)
  {
    if IsSecret(s) {
      assert forall j :: 3 <= j < 3 + MIN_TOKEN ==> s[j] == s[3..][j - 3];
    }
    if LeaksAt(s, 0) {
      TokenRunCovers(s[3..], MIN_TOKEN);
    }
  }

  lemma MarkerStarts(s: string)
    ensures IsSecret(s) ==> |SkRedacted(s)| > 0 && !IsTokenChar(SkRedacted(s)[0])
  {
  }

  // Token characters at the front of the output were copied.
  lemma {:induction false} TokenCharsAreCopied(s: string, m: nat)
    requires m <= |SkRedacted(s)| && forall j :: 0 <= j < m ==> IsTokenChar(SkRedacted(s)[j])
    ensures m <= |s| && SkRedacted(s)[..m] == s[..m]
    decreases |s|
  {
    if m > 0 {
      MarkerStarts(s);
      if !IsSecret(s) {
        assert SkRedacted(s)[1..] == SkRedacted(s[1..]);
        TokenCharsAreCopied(s[1..], m - 1);
      }
    }
  }

  lemma {:induction false} NothingLeaksAt(s: string, i: nat)
    ensures !LeaksAt(SkRedacted(s), i)
    decreases |s|
  {
    var out := SkRedacted(s);
    if s != "" && IsSecret(s) {
      var n := |REDACTED|;
      if i >= n {
        NothingLeaksAt(s[3 + TokenRun(s[3..])..], i - n);
        assert out[n..] == SkRedacted(s[3 + TokenRun(s[3..])..]);
        LeakShifts(out, n, i);
      } else if i + 3 <= |out| {
        assert out[i] == REDACTED[i] != 's';
      }
    } else if s != "" {
      if i > 0 {
        NothingLeaksAt(s[1..], i - 1);
        assert out[1..] == SkRedacted(s[1..]);
        LeakShifts(out, 1, i);
      } else if LeaksAt(out, 0) {
        TokenCharsAreCopied(s, 3 + MIN_TOKEN);
        assert LeaksAt(s, 0) by {
          assert forall j :: 0 <= j < 3 + MIN_TOKEN ==> s[j] == s[..3 + MIN_TOKEN][j] == out[j];
        }
        SecretLeaks(s);
      }
    }
  }

  lemma LeakShifts(s: string, n: nat, i: nat)
    requires n <= i && n <= |s|
    ensures LeaksAt(s, i) ==> LeaksAt(s[n..], i - n)
  {
    if LeaksAt(s, i) {
      assert forall j :: i <= j < |s| ==> s[n..][j - n] == s[j];
    }
  }

  // What comes out holds no token any more, and so does every prefix of it.
  lemma NoTokenIsLeft(s: string, n: nat)
    requires n <= |SkRedacted(s)|
    ensures !Leaks(SkRedacted(s)[..n])
  {
    forall i: nat ensures !LeaksAt(SkRedacted(s)[..n], i) {
      NothingLeaksAt(s, i);
      if LeaksAt(SkRedacted(s)[..n], i) {
        assert LeaksAt(SkRedacted(s), i) by {
          assert forall j :: 0 <= j < n ==> SkRedacted(s)[..n][j] == SkRedacted(s)[j];
        }
      }
    }
  }

  // Texts without a token, and no others, are left alone.
  lemma {:induction false} OnlyTokensAreTouched(s: string)
    ensures SkRedacted(s) == s <==> !Leaks(s)
    decreases |s|
  {
    if Leaks(s) {
      NoTokenIsLeft(s, |SkRedacted(s)|);
      assert SkRedacted(s)[..|SkRedacted(s)|] == SkRedacted(s);
    } else if s != "" {
      SecretLeaks(s);
      forall i: nat ensures !LeaksAt(s[1..], i) {
        if LeaksAt(s[1..], i) {
          assert forall j :: 0 <= j < |s| - 1 ==> s[1..][j] == s[j + 1];
          assert LeaksAt(s, i + 1);
        }
      }
      OnlyTokensAreTouched(s[1..]);
      assert s == [s[0]] + s[1..];
    }
  }

  lemma RedactingTokensTwice(s: string)
    ensures SkRedacted(SkRedacted(s)) == SkRedacted(s)
  {
    var out := SkRedacted(s);
    NoTokenIsLeft(s, |out|);
    assert out[..|out|] == out;
    OnlyTokensAreTouched(out);
  }
}
