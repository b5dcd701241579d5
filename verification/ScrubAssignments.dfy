// Redaction of key=value credentials (crates/observability/src/scrub.rs:261-304).
module ScrubAssignments {
  import opened Wrappers
  import opened Laws
  import opened Chars
  import opened Scrub

  const KEY_NAMES: seq<string> :=
    ["api_key", "api-key", "apikey", "secret", "token", "refresh_token", "refresh-token", "access_token",
     "access-token", "authorization", "auth", "password", "passwd"]

  // ---------------------------------------------------------------- keys

  predicate IsKeyChar(c: char) {
    IsLower(c) || c == '_' || c == '-'
  }

  predicate LooksLikeKey(w: string) {
    |w| >= 4 && IsLower(w[0]) && forall i :: 0 <= i < |w| ==> IsKeyChar(w[i])
  }

  lemma KeysLookLikeKeys()
    ensures forall i :: 0 <= i < |KEY_NAMES| ==> LooksLikeKey(KEY_NAMES[i])
  {
  }

  // A length or one of a few letters tells any two keys apart.
  predicate Apart(a: string, b: string) {
    || |a| > |b|
    || (|a| >= 4 && (a[0] != b[0] || a[3] != b[3]))
    || (|a| >= 8 && (a[6] != b[6] || a[7] != b[7]))
  }

  lemma EarlierKeysAreApart(i: nat, j: nat)
    requires i < j < |KEY_NAMES|
    ensures Apart(KEY_NAMES[i], KEY_NAMES[j])
  {
    if i < 4 {
    } else if i < 8 {
    }
  }

  // The listing order never lets a shorter key hide a longer one.
  lemma NoKeyHidesALaterOne(i: nat, j: nat)
    requires i < j < |KEY_NAMES|
    ensures !(KEY_NAMES[i] <= KEY_NAMES[j])
  {
    EarlierKeysAreApart(i, j);
  }

  // All that the scan relies on.
  ghost predicate IsKeyTable(keys: seq<string>) {
    && (forall i :: 0 <= i < |keys| ==> LooksLikeKey(keys[i]))
    && (forall i, j :: 0 <= i < j < |keys| ==> !(keys[i] <= keys[j]))
  }

  lemma KeyNamesAreAKeyTable()
    ensures IsKeyTable(KEY_NAMES)
  {
    KeysLookLikeKeys();
    forall i, j | 0 <= i < j < |KEY_NAMES| ensures !(KEY_NAMES[i] <= KEY_NAMES[j]) {
      NoKeyHidesALaterOne(i, j);
    }
  }

  // ---------------------------------------------------------------- the text of an assignment

  // Where the value of an assignment ends.
  predicate IsDelimiter(c: char) {
    IsWhitespace(c) || c in {'&', ';', '|', '"', '\''}
  }

  function ValueLen(s: string): (k: nat)
    ensures k <= |s| && (forall i :: 0 <= i < k ==> !IsDelimiter(s[i])) && (k < |s| ==> IsDelimiter(s[k]))
  {
    if s == "" || IsDelimiter(s[0]) then 0 else 1 + ValueLen(s[1..])
  }

  function Value(s: string): string {
    s[..ValueLen(s)]
  }

  function FirstEquals(s: string): (k: nat)
    ensures k <= |s| && (forall i :: 0 <= i < k ==> s[i] != '=') && (k < |s| ==> s[k] == '=')
  {
    if s == "" || s[0] == '=' then 0 else 1 + FirstEquals(s[1..])
  }

  // A listed key and an equals sign; the length of the key.
  predicate IsAssignment(keys: seq<string>, s: string, k: nat) {
    k < |s| && s[k] == '=' && s[..k] in keys
  }

  predicate AtBoundary(prev: Option<char>) {
    prev.None? || !(IsAlphanumeric(prev.value) || prev.value == '-')
  }

  predicate Harmless(value: string) {
    value == "" || value == REDACTED
  }

  // The value after the first equals sign, and where it ends.
  function ValueAfter(s: string, k: nat): string
    requires k < |s|
  {
    Value(s[k + 1..])
  }

  function ValueEnd(s: string, k: nat): (end: nat)
    requires k < |s|
    ensures k < end <= |s|
  {
    k + 1 + ValueLen(s[k + 1..])
  }

  // The text after `prev` assigns a credential that is still there.
  predicate Exposes(keys: seq<string>, prev: Option<char>, s: string) {
    var k := FirstEquals(s);
    AtBoundary(prev) && IsAssignment(keys, s, k) && !Harmless(ValueAfter(s, k))
  }

  lemma AssignmentShape(keys: seq<string>, s: string, k: nat)
    requires IsKeyTable(keys)
    requires IsAssignment(keys, s, k)
    ensures FirstEquals(s) == k && k > 0 && IsLower(s[0]) && forall i :: 0 <= i < k ==> IsKeyChar(s[i])
  {
    var w := s[..k];
    assert LooksLikeKey(w);
    assert forall i :: 0 <= i < k ==> s[i] == w[i];
    assert !IsKeyChar('=');
  }

  // ---------------------------------------------------------------- the redaction

  function Redacted(keys: seq<string>, prev: Option<char>, s: string): string
    decreases |s|, 1
  {
    if s == "" then "" else RedactedHere(keys, prev, s)
  }

  function RedactedHere(keys: seq<string>, prev: Option<char>, s: string): string
    requires s != ""
    decreases |s|, 0
  {
    if Exposes(keys, prev, s) then
      var k := FirstEquals(s);
      var end := ValueEnd(s, k);
      s[..k + 1] + REDACTED + Redacted(keys, Some(s[end - 1]), s[end..])
    else [s[0]] + Redacted(keys, Some(s[0]), s[1..])
  }

  lemma Replaces(keys: seq<string>, prev: Option<char>, s: string, k: nat, end: nat)
    requires Exposes(keys, prev, s) && k == FirstEquals(s) && end == ValueEnd(s, k)
    ensures Redacted(keys, prev, s) == s[..k + 1] + REDACTED + Redacted(keys, Some(s[end - 1]), s[end..])
  {
    assert Redacted(keys, prev, s) == RedactedHere(keys, prev, s);
  }

  lemma Copies(keys: seq<string>, prev: Option<char>, s: string)
    requires s != "" && !Exposes(keys, prev, s)
    ensures Redacted(keys, prev, s) == [s[0]] + Redacted(keys, Some(s[0]), s[1..])
  {
    assert Redacted(keys, prev, s) == RedactedHere(keys, prev, s);
  }

  // A listed key at the front, and the one before the equals sign if there is one.
  predicate IsFound(keys: seq<string>, s: string, length: Option<nat>) {
    && (length.Some? ==> length.value <= |s| && s[..length.value] in keys)
    && (IsAssignment(keys, s, FirstEquals(s)) ==> length == Some(FirstEquals(s)))
  }

  // The key found by trying the listed names in order.
  method FindKey(keys: seq<string>, s: string) returns (length: Option<nat>)
    requires IsKeyTable(keys)
    ensures IsFound(keys, s, length)
  {
    for i := 0 to |keys|
      invariant forall j :: 0 <= j < i ==> !(keys[j] <= s)
    {
      var key := keys[i];
      if |key| <= |s| && s[..|key|] == key {
        FirstMatchIsTheKey(keys, s, i);
        return Some(|key|);
      }
    }
    NothingFound(keys, s);
    length := None;
  }

  lemma NothingFound(keys: seq<string>, s: string)
    requires forall j :: 0 <= j < |keys| ==> !(keys[j] <= s)
    ensures IsFound(keys, s, None)
  {
    assert forall k :: 0 <= k <= |s| ==> s[..k] <= s;
  }

  lemma FirstMatchIsTheKey(keys: seq<string>, s: string, i: nat)
    requires IsKeyTable(keys)
    requires i < |keys| && keys[i] <= s
    requires forall j :: 0 <= j < i ==> !(keys[j] <= s)
    ensures IsFound(keys, s, Some(|keys[i]|))
  {
    var key := keys[i];
    assert s[..|key|] == key;
    var k := FirstEquals(s);
    if IsAssignment(keys, s, k) {
      assert LooksLikeKey(key) && forall m :: 0 <= m < |key| ==> s[m] == key[m] && IsKeyChar(s[m]);
      assert |key| <= k;
      var j :| 0 <= j < |keys| && keys[j] == s[..k];
      assert keys[j] <= s && keys[i] <= keys[j];
    }
  }

  // The character before a position, `prev` standing before the text.
  function PrevAt(prev: Option<char>, s: string, i: nat): Option<char>
    requires i <= |s|
  {
    if i == 0 then prev else Some(s[i - 1])
  }

  function RedactedFrom(keys: seq<string>, input: string, cursor: nat): string
    requires cursor <= |input|
  {
    Redacted(keys, PrevAt(None, input, cursor), input[cursor..])
  }

  method RedactAssignmentCredentials(input: string, keys: seq<string>) returns (output: string)
    requires IsKeyTable(keys)
    ensures output == Redacted(keys, None, input)
  {
    output := "";
    var cursor := 0;
    ghost var left := RedactedFrom(keys, input, 0);
    ghost var whole := left;
    RedactedEnds(keys, input);
    while cursor < |input|
      invariant cursor <= |input| && left == RedactedFrom(keys, input, cursor)
      invariant output + left == whole
    {
      ghost var before := left;
      var piece, n := NextPiece(input, cursor, keys);
      left := RedactedFrom(keys, input, cursor + n);
      Associative(output, piece, left);
      assert before == piece + left;
      output := output + piece;
      cursor := cursor + n;
    }
    assert left == "";
  }

  // From the start it is the whole redaction, and from the end nothing more.
  lemma RedactedEnds(keys: seq<string>, input: string)
    ensures RedactedFrom(keys, input, 0) == Redacted(keys, None, input)
    ensures RedactedFrom(keys, input, |input|) == ""
  {
    assert input[0..] == input && input[|input|..] == "";
  }

  // One turn of the loop: what it writes and how far it moves.
  method NextPiece(input: string, cursor: nat, keys: seq<string>) returns (piece: string, n: nat)
    requires IsKeyTable(keys) && cursor < |input|
    ensures 0 < n && cursor + n <= |input|
    ensures RedactedFrom(keys, input, cursor) == piece + RedactedFrom(keys, input, cursor + n)
  {
    piece, n := PieceInFront(PrevAt(None, input, cursor), input[cursor..], keys);
    Advances(keys, input, cursor, n);
  }

  method PieceInFront(prev: Option<char>, rest: string, keys: seq<string>) returns (piece: string, n: nat)
    requires IsKeyTable(keys) && rest != ""
    ensures 0 < n <= |rest|
    ensures Redacted(keys, prev, rest) == piece + Redacted(keys, Some(rest[n - 1]), rest[n..])
  {
    var key := FindKey(keys, rest);
    var end := if AtBoundary(prev) then ExposedEnd(rest, key) else None;
    NextStep(keys, prev, rest, key);
    if end.Some? {
      return rest[..key.value + 1] + REDACTED, end.value;
    }
    return [rest[0]], 1;
  }

  lemma Advances(keys: seq<string>, input: string, cursor: nat, n: nat)
    requires 0 < n && cursor + n <= |input|
    ensures var rest := input[cursor..];
      Redacted(keys, Some(rest[n - 1]), rest[n..]) == RedactedFrom(keys, input, cursor + n)
  {
    Suffixes(input, cursor, n);
    assert PrevAt(None, input, cursor + n) == Some(input[cursor..][n - 1]);
  }

  lemma NextStep(keys: seq<string>, prev: Option<char>, s: string, key: Option<nat>)
    requires IsKeyTable(keys) && s != ""
    requires IsFound(keys, s, key)
    ensures var end := if AtBoundary(prev) then ExposedEnd(s, key) else None;
      Redacted(keys, prev, s)
      == if end.Some? then s[..key.value + 1] + REDACTED + Redacted(keys, Some(s[end.value - 1]), s[end.value..])
         else [s[0]] + Redacted(keys, Some(s[0]), s[1..])
  {
    ExposedEndIsExact(keys, prev, s, key);
    if Exposes(keys, prev, s) {
      Replaces(keys, prev, s, key.value, ExposedEnd(s, key).value);
    } else {
      Copies(keys, prev, s);
    }
  }

  // The end of a value to be replaced, given the key the text starts with.
  function ExposedEnd(s: string, key: Option<nat>): (end: Option<nat>)
    requires key.Some? ==> key.value <= |s|
    ensures end.Some? ==> key.Some? && key.value + 1 < end.value <= |s|
  {
    if key.None? || key.value == |s| || s[key.value] != '=' then None
    else
      var value := s[key.value + 1..];
      var end := ValueLen(value);
      if end > 0 && value[..end] != REDACTED then Some(key.value + 1 + end) else None
  }

  lemma ExposedEndIsExact(keys: seq<string>, prev: Option<char>, s: string, key: Option<nat>)
    requires IsKeyTable(keys)
    requires IsFound(keys, s, key)
    ensures Exposes(keys, prev, s) <==> AtBoundary(prev) && ExposedEnd(s, key).Some?
    ensures Exposes(keys, prev, s) ==>
              key == Some(FirstEquals(s))
              && ExposedEnd(s, key) == Some(ValueEnd(s, key.value))
  {
    if key.Some? && key.value < |s| && s[key.value] == '=' {
      AssignmentShape(keys, s, key.value);
      KeyDecides(keys, prev, s, key.value);
    } else {
      assert !IsAssignment(keys, s, FirstEquals(s));
    }
  }

  lemma KeyDecides(keys: seq<string>, prev: Option<char>, s: string, k: nat)
    requires IsAssignment(keys, s, k) && FirstEquals(s) == k
    ensures Exposes(keys, prev, s) <==> AtBoundary(prev) && ExposedEnd(s, Some(k)).Some?
    ensures ExposedEnd(s, Some(k)).Some? ==> ExposedEnd(s, Some(k)) == Some(ValueEnd(s, k))
  {
  }

  // ---------------------------------------------------------------- what is left

  // The output up to its first equals sign was copied.
  lemma {:induction false} CopiedUpToEquals(keys: seq<string>, prev: Option<char>, s: string, k: nat)
    requires k < |Redacted(keys, prev, s)| && FirstEquals(Redacted(keys, prev, s)) == k
    ensures k < |s| && Redacted(keys, prev, s)[..k + 1] == s[..k + 1]
    decreases |s|
  {
    if Exposes(keys, prev, s) {
      var m := FirstEquals(s);
      var end := ValueEnd(s, m);
      Replaces(keys, prev, s, m, end);
      SharedFront(s, REDACTED, Redacted(keys, Some(s[end - 1]), s[end..]), m);
    } else {
      Copies(keys, prev, s);
      if k > 0 {
        var rest := Redacted(keys, Some(s[0]), s[1..]);
        assert FirstEquals(rest) == k - 1;
        CopiedUpToEquals(keys, Some(s[0]), s[1..], k - 1);
        OneInFront(s, rest, k);
      }
    }
  }

  lemma SharedFront(s: string, middle: string, rest: string, m: nat)
    requires m < |s| && FirstEquals(s) == m
    ensures var out := s[..m + 1] + middle + rest;
      out[..m + 1] == s[..m + 1] && FirstEquals(out) == m
  {
    var out := s[..m + 1] + middle + rest;
    assert out[..m + 1] == s[..m + 1];
    FirstEqualsIn(out, s, m);
  }

  lemma OneInFront(s: string, rest: string, k: nat)
    requires 0 < k < |s| && k <= |rest| && rest[..k] == s[1..][..k]
    ensures ([s[0]] + rest)[..k + 1] == s[..k + 1]
  {
    assert ([s[0]] + rest)[..k + 1] == [s[0]] + rest[..k];
    assert s[..k + 1] == [s[0]] + s[1..][..k];
  }

  // The first equals sign only depends on the text up to it.
  lemma FirstEqualsIn(t: string, s: string, m: nat)
    requires m < |s| && m < |t| && t[..m + 1] == s[..m + 1] && FirstEquals(s) == m
    ensures FirstEquals(t) == m
  {
    assert forall i :: 0 <= i <= m ==> t[i] == t[..m + 1][i] && s[i] == s[..m + 1][i];
  }

  // Before a harmless value everything is copied.
  lemma {:induction false} CopiesUpToHarmless(keys: seq<string>, prev: Option<char>, s: string, k: nat)
    requires k < |s| && FirstEquals(s) == k && Harmless(ValueAfter(s, k))
    ensures Redacted(keys, prev, s) == s[..k + 1] + Redacted(keys, Some('='), s[k + 1..])
    decreases |s|
  {
    Copies(keys, prev, s);
    if k > 0 {
      Suffixes(s, 1, k);
      CopiesUpToHarmless(keys, Some(s[0]), s[1..], k - 1);
      Associative([s[0]], s[1..][..k], Redacted(keys, Some('='), s[k + 1..]));
      assert s[..k + 1] == [s[0]] + s[1..][..k];
    } else {
      assert s[..1] == [s[0]];
    }
  }

  // Where no key can start, everything is copied.
  lemma {:induction false} CopiesWithoutKeys(keys: seq<string>, prev: Option<char>, s: string, m: nat)
    requires IsKeyTable(keys)
    requires m <= |s| && forall i :: 0 <= i < m ==> !IsLower(s[i])
    ensures Redacted(keys, prev, s) == s[..m] + Redacted(keys, PrevAt(prev, s, m), s[m..])
    decreases m
  {
    if m > 0 {
      NotLowerIsSafe(keys, prev, s);
      Copies(keys, prev, s);
      Suffixes(s, 1, m - 1);
      CopiesWithoutKeys(keys, Some(s[0]), s[1..], m - 1);
      Associative([s[0]], s[1..][..m - 1], Redacted(keys, PrevAt(prev, s, m), s[m..]));
      assert s[..m] == [s[0]] + s[1..][..m - 1];
    } else {
      assert s[0..] == s;
    }
  }

  lemma NotLowerIsSafe(keys: seq<string>, prev: Option<char>, s: string)
    requires IsKeyTable(keys) && (s == "" || !IsLower(s[0]))
    ensures !Exposes(keys, prev, s)
  {
    if s != "" && IsAssignment(keys, s, FirstEquals(s)) {
      AssignmentShape(keys, s, FirstEquals(s));
    }
  }

  lemma HarmlessStays(keys: seq<string>, s: string)
    requires IsKeyTable(keys) && Harmless(Value(s))
    ensures Value(Redacted(keys, Some('='), s)) == Value(s)
  {
    var n := ValueLen(s);
    var m := if n < |s| then n + 1 else n;
    assert forall i :: 0 <= i < n ==> s[i] == Value(s)[i];
    assert Value(s) == REDACTED ==> forall i :: 0 <= i < n ==> s[i] == REDACTED[i];
    CopiesWithoutKeys(keys, Some('='), s, m);
    var out := Redacted(keys, Some('='), s);
    assert out[..m] == s[..m];
    assert n == |s| ==> s[m..] == "";
    ValueOfCopy(out, s, m);
  }

  // Texts that agree up to and including the delimiter have the same value.
  lemma ValueOfCopy(t: string, s: string, m: nat)
    requires m == (if ValueLen(s) < |s| then ValueLen(s) + 1 else |s|) && m <= |t| && t[..m] == s[..m]
    requires ValueLen(s) == |s| ==> |t| == |s|
    ensures Value(t) == Value(s)
  {
    var n := ValueLen(s);
    SameFront(t, s, m);
    ValueIs(t, n);
    assert t[..n] == s[..n];
  }

  lemma SameFront(t: string, s: string, m: nat)
    requires m <= |t| && m <= |s| && t[..m] == s[..m]
    ensures forall i :: 0 <= i < m ==> t[i] == s[i]
  {
    assert forall i :: 0 <= i < m ==> t[i] == t[..m][i] && s[i] == s[..m][i];
  }

  lemma ValueIs(s: string, n: nat)
    requires n <= |s| && (forall i :: 0 <= i < n ==> !IsDelimiter(s[i])) && (n < |s| ==> IsDelimiter(s[n]))
    ensures ValueLen(s) == n
  {
  }

  // Position i of a text exposes a credential.
  predicate ExposesAt(keys: seq<string>, prev: Option<char>, s: string, i: nat) {
    i <= |s| && Exposes(keys, PrevAt(prev, s, i), s[i..])
  }

  lemma {:induction false} NothingIsExposed(keys: seq<string>, prev: Option<char>, s: string, i: nat)
    requires IsKeyTable(keys)
    ensures !ExposesAt(keys, prev, Redacted(keys, prev, s), i)
    decreases |s|, 1
  {
    if s != "" {
      if Exposes(keys, prev, s) {
        ReplacedIsSafe(keys, prev, s, i);
      } else {
        Copies(keys, prev, s);
        if i > 0 {
          NothingIsExposed(keys, Some(s[0]), s[1..], i - 1);
          ShiftByOne(keys, prev, s[0], Redacted(keys, Some(s[0]), s[1..]), i);
        } else {
          CopyIsSafe(keys, prev, s);
          assert Redacted(keys, prev, s)[0..] == Redacted(keys, prev, s);
        }
      }
    }
  }

  lemma {:induction false} ReplacedIsSafe(keys: seq<string>, prev: Option<char>, s: string, i: nat)
    requires IsKeyTable(keys) && Exposes(keys, prev, s)
    ensures !ExposesAt(keys, prev, Redacted(keys, prev, s), i)
    decreases |s|, 0
  {
    var k := FirstEquals(s);
    var end := ValueEnd(s, k);
    var last, rest := Some(s[end - 1]), Redacted(keys, Some(s[end - 1]), s[end..]);
    Replaces(keys, prev, s, k, end);
    RestStartsSafely(keys, last, s[end..]);
    var m := k + 1 + |REDACTED|;
    if i > m {
      NothingIsExposed(keys, last, s[end..], i - m);
    }
    FirstEqualsIn(s[..k + 1], s, k);
    MarkedIsSafe(keys, prev, s[..k + 1], last, rest, i);
  }

  lemma ShiftByOne(keys: seq<string>, prev: Option<char>, c: char, rest: string, i: nat)
    requires i > 0
    ensures ExposesAt(keys, prev, [c] + rest, i) <==> ExposesAt(keys, Some(c), rest, i - 1)
  {
    if i <= |rest| + 1 {
      assert ([c] + rest)[i..] == rest[i - 1..];
    }
  }

  // A key that was copied keeps the harmless value it had.
  lemma CopyIsSafe(keys: seq<string>, prev: Option<char>, s: string)
    requires IsKeyTable(keys) && s != "" && !Exposes(keys, prev, s)
    ensures !Exposes(keys, prev, Redacted(keys, prev, s))
  {
    var out := Redacted(keys, prev, s);
    var k := FirstEquals(out);
    if AtBoundary(prev) && IsAssignment(keys, out, k) {
      CopiedUpToEquals(keys, prev, s, k);
      FirstEqualsIn(s, out, k);
      assert s[..k] == s[..k + 1][..k] == out[..k];
      assert Harmless(ValueAfter(s, k));
      CopiesUpToHarmless(keys, prev, s, k);
      HarmlessStays(keys, s[k + 1..]);
      assert out[k + 1..] == Redacted(keys, Some('='), s[k + 1..]);
    }
  }

  // A replaced value is followed by a delimiter or by the end, so it reads as the
  // marker; inside the marker no key starts.
  lemma MarkedIsSafe(keys: seq<string>, prev: Option<char>, head: string, last: Option<char>, rest: string, i: nat)
    requires IsKeyTable(keys) && head != "" && FirstEquals(head) == |head| - 1
    requires rest == "" || IsDelimiter(rest[0])
    requires i > |head| + |REDACTED| ==> !ExposesAt(keys, last, rest, i - |head| - |REDACTED|)
    ensures !ExposesAt(keys, prev, head + REDACTED + rest, i)
  {
    var out := head + REDACTED + rest;
    if i < |head| {
      HeadIsSafe(keys, PrevAt(prev, out, i), head, rest, i);
    } else if i <= |head| + |REDACTED| {
      AfterTheEquals(out, head, rest, i);
      NotLowerIsSafe(keys, PrevAt(prev, out, i), out[i..]);
    } else if i <= |out| {
      AfterTheEquals(out, head, rest, i);
      var m := i - |head| - |REDACTED|;
      assert out[i - 1] == rest[m - 1];
      assert PrevAt(prev, out, i) == PrevAt(last, rest, m);
    }
  }

  lemma HeadIsSafe(keys: seq<string>, prev: Option<char>, head: string, rest: string, i: nat)
    requires head != "" && FirstEquals(head) == |head| - 1 && i < |head|
    requires rest == "" || IsDelimiter(rest[0])
    ensures !Exposes(keys, prev, (head + REDACTED + rest)[i..])
  {
    var tail := head[i..];
    LastEquals(head, i);
    EqualsInFront(tail, REDACTED + rest);
    MarkerIsTheValue(rest);
    Parts(head, REDACTED, rest, i);
    HarmlessIsSafe(keys, prev, tail + (REDACTED + rest), |tail| - 1);
  }

  lemma LastEquals(head: string, i: nat)
    requires head != "" && FirstEquals(head) == |head| - 1 && i < |head|
    ensures FirstEquals(head[i..]) == |head| - 1 - i
  {
  }

  lemma EqualsInFront(front: string, rest: string)
    requires front != "" && FirstEquals(front) == |front| - 1
    ensures FirstEquals(front + rest) == |front| - 1 && (front + rest)[|front|..] == rest
  {
    assert (front + rest)[..|front|] == front == front[..|front|];
    FirstEqualsIn(front + rest, front, |front| - 1);
  }

  lemma HarmlessIsSafe(keys: seq<string>, prev: Option<char>, s: string, k: nat)
    requires k < |s| && k == FirstEquals(s) && Harmless(ValueAfter(s, k))
    ensures !Exposes(keys, prev, s)
  {
  }

  lemma Parts(head: string, middle: string, rest: string, i: nat)
    requires i <= |head|
    ensures (head + middle + rest)[i..] == head[i..] + (middle + rest)
  {
  }

  lemma RestStartsSafely(keys: seq<string>, prev: Option<char>, s: string)
    requires IsKeyTable(keys) && (s == "" || IsDelimiter(s[0]))
    ensures var rest := Redacted(keys, prev, s); rest == "" || (rest[0] == s[0] && IsDelimiter(rest[0]))
  {
    if s != "" {
      NotLowerIsSafe(keys, prev, s);
      Copies(keys, prev, s);
    }
  }

  lemma MarkerIsTheValue(rest: string)
    requires rest == "" || IsDelimiter(rest[0])
    ensures Value(REDACTED + rest) == REDACTED
  {
    var s := REDACTED + rest;
    assert forall i :: 0 <= i < |REDACTED| ==> s[i] == REDACTED[i];
    ValueIs(s, |REDACTED|);
  }

  lemma AfterTheEquals(out: string, head: string, rest: string, i: nat)
    requires out == head + REDACTED + rest && |head| <= i <= |out|
    requires rest == "" || IsDelimiter(rest[0])
    ensures i <= |head| + |REDACTED| ==> out[i..] == "" || !IsLower(out[i..][0])
    ensures i >= |head| + |REDACTED| ==> out[i..] == rest[i - |head| - |REDACTED|..]
  {
    assert i < |head| + |REDACTED| ==> out[i] == REDACTED[i - |head|];
  }

  // At a boundary, position i of a text holds a listed key and an equals sign.
  predicate KeyAt(keys: seq<string>, s: string, i: nat, key: string) {
    && key in keys && i + |key| < |s| && s[i..i + |key|] == key && s[i + |key|] == '='
    && AtBoundary(PrevAt(None, s, i))
  }

  // In the output, whatever follows such a key is nothing or exactly the marker.
  lemma EveryCredentialIsGone(keys: seq<string>, s: string, i: nat, key: string)
    requires IsKeyTable(keys) && KeyAt(keys, Redacted(keys, None, s), i, key)
    ensures Value(Redacted(keys, None, s)[i + |key| + 1..]) in {"", REDACTED}
  {
    NothingIsExposed(keys, None, s, i);
    KeyMustBeHarmless(keys, Redacted(keys, None, s), i, key);
  }

  lemma KeyMustBeHarmless(keys: seq<string>, out: string, i: nat, key: string)
    requires IsKeyTable(keys) && KeyAt(keys, out, i, key) && !ExposesAt(keys, None, out, i)
    ensures Harmless(Value(out[i + |key| + 1..]))
  {
    assert out[i..][..|key|] == key;
    AssignmentShape(keys, out[i..], |key|);
    Suffixes(out, i, |key| + 1);
  }

  lemma {:induction false} HarmlessTextStays(keys: seq<string>, prev: Option<char>, s: string)
    requires forall i: nat :: !ExposesAt(keys, prev, s, i)
    ensures Redacted(keys, prev, s) == s
    decreases |s|
  {
    if s != "" {
      assert s[0..] == s;
      assert !ExposesAt(keys, prev, s, 0);
      Copies(keys, prev, s);
      assert s == [s[0]] + s[1..];
      forall i: nat ensures !ExposesAt(keys, Some(s[0]), s[1..], i) {
        ShiftByOne(keys, prev, s[0], s[1..], i + 1);
        assert !ExposesAt(keys, prev, s, i + 1);
      }
      HarmlessTextStays(keys, Some(s[0]), s[1..]);
    }
  }

  // Exactly the texts that expose nothing are left alone.
  lemma OnlyCredentialsAreTouched(keys: seq<string>, prev: Option<char>, s: string)
    requires IsKeyTable(keys)
    ensures Redacted(keys, prev, s) == s <==> forall i: nat :: !ExposesAt(keys, prev, s, i)
  {
    if Redacted(keys, prev, s) == s {
      forall i: nat ensures !ExposesAt(keys, prev, s, i) {
        NothingIsExposed(keys, prev, s, i);
      }
    } else if forall i: nat :: !ExposesAt(keys, prev, s, i) {
      HarmlessTextStays(keys, prev, s);
    }
  }

  lemma RedactingCredentialsTwice(keys: seq<string>, s: string)
    requires IsKeyTable(keys)
    ensures Redacted(keys, None, Redacted(keys, None, s)) == Redacted(keys, None, s)
  {
    var out := Redacted(keys, None, s);
    forall i: nat ensures !ExposesAt(keys, None, out, i) {
      NothingIsExposed(keys, None, s, i);
    }
    OnlyCredentialsAreTouched(keys, None, out);
  }

  // Cut anywhere, the output may end inside a marker, but never shows anything
  // else after a key.
  lemma CuttingRevealsNothing(keys: seq<string>, s: string, n: nat, i: nat, key: string)
    requires IsKeyTable(keys) && n <= |Redacted(keys, None, s)|
    requires KeyAt(keys, Redacted(keys, None, s)[..n], i, key)
    ensures Value(Redacted(keys, None, s)[..n][i + |key| + 1..]) <= REDACTED
  {
    KeyInPrefix(keys, Redacted(keys, None, s), n, i, key);
    EveryCredentialIsGone(keys, s, i, key);
    CutShowsLess(Redacted(keys, None, s), n, i + |key| + 1);
  }

  lemma CutShowsLess(s: string, n: nat, m: nat)
    requires m <= n <= |s| && Value(s[m..]) in {"", REDACTED}
    ensures Value(s[..n][m..]) <= REDACTED
  {
    CutSuffix(s, n, m);
    ValueOfPrefix(s[m..], n - m);
  }

  lemma KeyInPrefix(keys: seq<string>, s: string, n: nat, i: nat, key: string)
    requires n <= |s| && KeyAt(keys, s[..n], i, key)
    ensures KeyAt(keys, s, i, key)
  {
    assert s[..n][i..i + |key|] == s[i..i + |key|];
  }

  lemma CutSuffix(s: string, n: nat, m: nat)
    requires m <= n <= |s|
    ensures s[..n][m..] == s[m..][..n - m]
  {
  }

  lemma ValueOfPrefix(s: string, n: nat)
    requires n <= |s|
    ensures Value(s[..n]) <= Value(s)
  {
    var k := ValueLen(s[..n]);
    assert forall i :: 0 <= i < k ==> s[i] == s[..n][i];
    assert k <= ValueLen(s);
    assert s[..n][..k] == s[..ValueLen(s)][..k];
  }
}
