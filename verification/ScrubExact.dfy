// What the scanning redactors make of a text, said without their scans: everything in front of the first token or
// credential is kept, it is replaced by the marker, and what follows it is redacted on its own
// (crates/observability/src/scrub.rs:212-304).
module ScrubExact {
  import opened Wrappers
  import opened Laws
  import opened Chars
  import opened Scrub
  import opened ScrubAssignments

  // ---------------------------------------------------------------- tokens

  predicate InToken(c: char) {
    IsAlphanumeric(c) || c == '-' || c == '_' || c == '.'
  }

  // "sk-" and all the token characters behind it, 20 of them at least.
  predicate IsToken(s: string, i: nat, end: nat) {
    && i + 23 <= end <= |s|
    && s[i..i + 3] == "sk-"
    && (forall j :: i + 3 <= j < end ==> InToken(s[j]))
    && (end == |s| || !InToken(s[end]))
  }

  lemma TokenLeaks(s: string, i: nat, end: nat)
    requires IsToken(s, i, end)
    ensures LeaksAt(s, i)
  {
    var marker := s[i..i + 3];
    assert s[i] == marker[0] && s[i + 1] == marker[1] && s[i + 2] == marker[2];
  }

  lemma LeakIsToken(s: string, i: nat) returns (end: nat)
    requires LeaksAt(s, i)
    ensures IsToken(s, i, end)
  {
    end := i + 3 + TokenRun(s[i + 3..]);
    TokenRunCovers(s[i + 3..], 20);
    assert forall j :: i + 3 <= j < end ==> s[j] == s[i + 3..][j - i - 3];
    assert s[i..i + 3] == "sk-";
  }

  lemma ShiftToken(s: string, i: nat, end: nat)
    requires 0 < i <= |s| && 0 < end <= |s|
    ensures IsToken(s[1..], i - 1, end - 1) <==> IsToken(s, i, end)
  {
    if i + 3 <= |s| {
      assert s[1..][i - 1..i + 2] == s[i..i + 3];
    }
    assert forall j :: 0 < j < |s| ==> s[1..][j - 1] == s[j];
    if IsToken(s[1..], i - 1, end - 1) {
      forall j | i + 3 <= j < end ensures InToken(s[j]) {
        assert s[1..][j - 1] == s[j];
      }
    }
    if IsToken(s, i, end) {
      forall j | i + 2 <= j < end - 1 ensures InToken(s[1..][j]) {
        assert s[1..][j] == s[j + 1];
      }
    }
  }

  lemma TokenInFront(s: string, end: nat)
    requires IsToken(s, 0, end)
    ensures SkRedacted(s) == REDACTED + SkRedacted(s[end..])
  {
    TokenLeaks(s, 0, end);
    SecretLeaks(s);
    TokenRunIs(s, 3, end);
  }

  lemma NoTokenInFront(s: string)
    requires s != "" && forall end: nat :: !IsToken(s, 0, end)
    ensures SkRedacted(s) == [s[0]] + SkRedacted(s[1..])
  {
    if LeaksAt(s, 0) {
      var end := LeakIsToken(s, 0);
    }
    SecretLeaks(s);
  }

  /** The text in front of the first token is kept, the token gives way to the marker, and the text behind it is
      redacted on its own; a text without a token is kept as it is. */
  lemma {:induction false} TextAroundTokensIsKept(s: string, i: nat, end: nat)
    requires IsToken(s, i, end)
    requires forall j: nat, e: nat :: j < i ==> !IsToken(s, j, e)
    ensures SkRedacted(s) == s[..i] + "[REDACTED]" + SkRedacted(s[end..])
    decreases i
  {
    if i == 0 {
      TokenInFront(s, end);
    } else {
      NoTokenInFront(s);
      ShiftToken(s, i, end);
      forall j: nat, e: nat | j < i - 1 ensures !IsToken(s[1..], j, e) {
        if e < |s| {
          ShiftToken(s, j + 1, e + 1);
        }
      }
      TextAroundTokensIsKept(s[1..], i - 1, end - 1);
      Suffixes(s, 1, end - 1);
      PutInFront(s, i, "[REDACTED]", SkRedacted(s[end..]));
    }
  }

  lemma PutInFront(s: string, i: nat, marker: string, rest: string)
    requires 0 < i <= |s|
    ensures [s[0]] + (s[1..][..i - 1] + marker + rest) == s[..i] + marker + rest
  {
  }

  lemma TextWithoutTokenIsKept(s: string)
    requires forall i: nat, end: nat :: !IsToken(s, i, end)
    ensures SkRedacted(s) == s
  {
    forall i: nat ensures !LeaksAt(s, i) {
      if LeaksAt(s, i) {
        var end := LeakIsToken(s, i);
      }
    }
    OnlyTokensAreTouched(s);
  }

  // ---------------------------------------------------------------- credentials

  // What ends a value.
  predicate EndsValue(c: char) {
    IsWhitespace(c) || c == '&' || c == ';' || c == '|' || c == '"' || c == '\''
  }

  // What may not stand before a key.
  predicate JoinsKey(prev: Option<char>) {
    prev.Some? && (IsAlphanumeric(prev.value) || prev.value == '-')
  }

  // A listed key that nothing joins, an equals sign, and a value up to its end that is neither empty nor the marker.
  predicate IsCredential(keys: seq<string>, prev: Option<char>, s: string, i: nat, key: string, end: nat) {
    && key in keys && i + |key| + 1 < end <= |s|
    && s[i..i + |key|] == key && s[i + |key|] == '='
    && !JoinsKey(if i == 0 then prev else Some(s[i - 1]))
    && (forall j :: i + |key| < j < end ==> !EndsValue(s[j]))
    && (end == |s| || EndsValue(s[end]))
    && s[i + |key| + 1..end] != "[REDACTED]"
  }

  // In front of a text the scan replaces exactly the credentials.
  lemma CredentialInFront(keys: seq<string>, prev: Option<char>, s: string, key: string, end: nat)
    requires IsKeyTable(keys) && IsCredential(keys, prev, s, 0, key, end)
    ensures Exposes(keys, prev, s) && FirstEquals(s) == |key| && ValueEnd(s, |key|) == end
  {
    assert s[..|key|] == key;
    AssignmentShape(keys, s, |key|);
    var value := s[|key| + 1..];
    ValueIs(value, end - |key| - 1);
    assert value[..end - |key| - 1] == s[|key| + 1..end];
  }

  lemma ExposedIsCredential(keys: seq<string>, prev: Option<char>, s: string) returns (key: string, end: nat)
    requires IsKeyTable(keys) && Exposes(keys, prev, s)
    ensures IsCredential(keys, prev, s, 0, key, end)
  {
    var k := FirstEquals(s);
    key := s[..k];
    end := ValueEnd(s, k);
    var value := s[k + 1..];
    assert forall j :: k < j < end ==> s[j] == value[j - k - 1];
    assert value[..end - k - 1] == s[k + 1..end];
    assert s[0..k] == key;
  }

  lemma ShiftCredential(keys: seq<string>, prev: Option<char>, s: string, i: nat, key: string, end: nat)
    requires 0 < i <= |s| && 0 < end <= |s|
    ensures IsCredential(keys, Some(s[0]), s[1..], i - 1, key, end - 1) <==> IsCredential(keys, prev, s, i, key, end)
  {
    assert forall j :: 0 < j < |s| ==> s[1..][j - 1] == s[j];
    if i + |key| + 1 < end {
      assert s[1..][i - 1..i - 1 + |key|] == s[i..i + |key|];
      assert s[1..][i + |key|..end - 1] == s[i + |key| + 1..end];
      ValueShifts(s, i + |key|, end);
    }
  }

  lemma ValueShifts(s: string, from: nat, end: nat)
    requires from < end <= |s| && 0 < from
    ensures (forall j :: from < j < end ==> !EndsValue(s[j])) <==>
            (forall j :: from - 1 < j < end - 1 ==> !EndsValue(s[1..][j]))
  {
    if forall j :: from < j < end ==> !EndsValue(s[j]) {
      forall j | from - 1 < j < end - 1 ensures !EndsValue(s[1..][j]) {
        assert s[1..][j] == s[j + 1];
      }
    }
    if forall j :: from - 1 < j < end - 1 ==> !EndsValue(s[1..][j]) {
      forall j | from < j < end ensures !EndsValue(s[j]) {
        assert s[1..][j - 1] == s[j];
      }
    }
  }

  lemma NoCredentialInFront(keys: seq<string>, prev: Option<char>, s: string)
    requires IsKeyTable(keys) && s != ""
    requires forall key, end: nat :: !IsCredential(keys, prev, s, 0, key, end)
    ensures Redacted(keys, prev, s) == [s[0]] + Redacted(keys, Some(s[0]), s[1..])
  {
    if Exposes(keys, prev, s) {
      var key, end := ExposedIsCredential(keys, prev, s);
    }
    Copies(keys, prev, s);
  }

  /** The text up to the equals sign of the first credential is kept, its value gives way to the marker, and the text
      behind it is redacted on its own. */
  lemma {:induction false} TextAroundCredentialsIsKept(keys: seq<string>, prev: Option<char>, s: string, i: nat,
                                                      key: string, end: nat)
    requires IsKeyTable(keys) && IsCredential(keys, prev, s, i, key, end)
    requires forall j: nat, other, e: nat :: j < i ==> !IsCredential(keys, prev, s, j, other, e)
    ensures Redacted(keys, prev, s) ==
            s[..i + |key| + 1] + "[REDACTED]" + Redacted(keys, Some(s[end - 1]), s[end..])
    decreases i, 1
  {
    if i == 0 {
      CredentialInFront(keys, prev, s, key, end);
      Replaces(keys, prev, s, |key|, end);
    } else {
      NoCredentialInFront(keys, prev, s);
      ShiftCredential(keys, prev, s, i, key, end);
      NoneEarlier(keys, prev, s, i);
      LaterIsKept(keys, s, i, key, end);
    }
  }

  lemma {:induction false} LaterIsKept(keys: seq<string>, s: string, i: nat, key: string, end: nat)
    requires IsKeyTable(keys) && 0 < i && i + |key| + 1 < end <= |s|
    requires IsCredential(keys, Some(s[0]), s[1..], i - 1, key, end - 1)
    requires forall j: nat, other, e: nat :: j < i - 1 ==> !IsCredential(keys, Some(s[0]), s[1..], j, other, e)
    ensures [s[0]] + Redacted(keys, Some(s[0]), s[1..]) ==
            s[..i + |key| + 1] + "[REDACTED]" + Redacted(keys, Some(s[end - 1]), s[end..])
    decreases i, 0
  {
    TextAroundCredentialsIsKept(keys, Some(s[0]), s[1..], i - 1, key, end - 1);
    OneMoreKept(keys, s, i + |key| + 1, end, Redacted(keys, Some(s[0]), s[1..]));
  }

  lemma NoneEarlier(keys: seq<string>, prev: Option<char>, s: string, i: nat)
    requires 0 < i <= |s| && forall j: nat, other, e: nat :: j < i ==> !IsCredential(keys, prev, s, j, other, e)
    ensures forall j: nat, other, e: nat :: j < i - 1 ==> !IsCredential(keys, Some(s[0]), s[1..], j, other, e)
  {
    forall j: nat, other, e: nat | j < i - 1 ensures !IsCredential(keys, Some(s[0]), s[1..], j, other, e) {
      if e < |s| {
        ShiftCredential(keys, prev, s, j + 1, other, e + 1);
      }
    }
  }

  lemma OneMoreKept(keys: seq<string>, s: string, m: nat, end: nat, inner: string)
    requires 0 < m < end <= |s|
    requires inner == s[1..][..m - 1] + "[REDACTED]" + Redacted(keys, Some(s[1..][end - 2]), s[1..][end - 1..])
    ensures [s[0]] + inner == s[..m] + "[REDACTED]" + Redacted(keys, Some(s[end - 1]), s[end..])
  {
    Suffixes(s, 1, end - 1);
    PutInFront(s, m, "[REDACTED]", Redacted(keys, Some(s[end - 1]), s[end..]));
  }

  /** A text without a credential is kept as it is. */
  lemma {:induction false} TextWithoutCredentialIsKept(keys: seq<string>, prev: Option<char>, s: string)
    requires IsKeyTable(keys) && forall i: nat, key, end: nat :: !IsCredential(keys, prev, s, i, key, end)
    ensures Redacted(keys, prev, s) == s
    decreases |s|
  {
    if s != "" {
      NoCredentialInFront(keys, prev, s);
      forall i: nat, key, end: nat ensures !IsCredential(keys, Some(s[0]), s[1..], i, key, end) {
        if i < |s| && end < |s| {
          ShiftCredential(keys, prev, s, i + 1, key, end + 1);
        }
      }
      TextWithoutCredentialIsKept(keys, Some(s[0]), s[1..]);
      assert s == [s[0]] + s[1..];
    }
  }

  lemma {:induction false} FirstCredential(keys: seq<string>, prev: Option<char>, s: string, i: nat, key: string,
                                          end: nat)
    returns (first: nat, k: string, e: nat)
    requires IsCredential(keys, prev, s, i, key, end)
    ensures IsCredential(keys, prev, s, first, k, e) && first <= i
    ensures forall j: nat, other, x: nat :: j < first ==> !IsCredential(keys, prev, s, j, other, x)
    decreases i
  {
    if j: nat, other, x: nat :| j < i && IsCredential(keys, prev, s, j, other, x) {
      first, k, e := FirstCredential(keys, prev, s, j, other, x);
    } else {
      first, k, e := i, key, end;
    }
  }
}
