// The byte budget on outbound text (crates/observability/src/scrub.rs:201-210):
// truncation on UTF-8 bytes.
module ScrubBound {
  import opened Bytes
  import opened Scrub

  // ---------------------------------------------------------------- UTF-8, section 3 of RFC 3629

  predicate IsContinuation(b: byte) {
    0x80 <= b < 0xC0
  }

  function Encode(c: char): (b: seq<byte>)
    ensures 1 <= |b| <= 4 && !IsContinuation(b[0])
    ensures forall i :: 1 <= i < |b| ==> IsContinuation(b[i])
  {
    var n := c as int;
    if n < 0x80 then [n]
    else if n < 0x800 then [0xC0 + n / 0x40, 0x80 + n % 0x40]
    else if n < 0x1_0000 then [0xE0 + n / 0x1000, 0x80 + n / 0x40 % 0x40, 0x80 + n % 0x40]
    else [0xF0 + n / 0x4_0000, 0x80 + n / 0x1000 % 0x40, 0x80 + n / 0x40 % 0x40, 0x80 + n % 0x40]
  }

  function Utf8(s: string): seq<byte> {
    if s == "" then [] else Encode(s[0]) + Utf8(s[1..])
  }

  lemma {:induction false} Utf8Append(s: string, t: string)
    ensures Utf8(s + t) == Utf8(s) + Utf8(t)
    decreases |s|
  {
    if s == "" {
      assert s + t == t;
    } else {
      Utf8Append(s[1..], t);
      assert (s + t)[1..] == s[1..] + t;
      assert Encode(s[0]) + (Utf8(s[1..]) + Utf8(t)) == Encode(s[0]) + Utf8(s[1..]) + Utf8(t);
    }
  }

  // ---------------------------------------------------------------- truncation

  // Whether a cut there leaves whole characters.
  predicate IsCharBoundary(b: seq<byte>, i: nat) {
    i == 0 || i == |b| || (i < |b| && !IsContinuation(b[i]))
  }

  // The last boundary at or before a position.
  function LastBoundary(b: seq<byte>, i: nat): (k: nat)
    ensures k <= i && IsCharBoundary(b, k)
    ensures forall j :: k < j <= i ==> !IsCharBoundary(b, j)
  {
    if IsCharBoundary(b, i) then i else LastBoundary(b, i - 1)
  }

  method TruncateUtf8(input: seq<byte>, maxBytes: nat) returns (r: seq<byte>)
    ensures r == if |input| <= maxBytes then input else input[..LastBoundary(input, maxBytes)]
  {
    if |input| <= maxBytes {
      return input;
    }
    var end: nat := maxBytes;
    while !IsCharBoundary(input, end)
      invariant 0 <= end <= maxBytes && LastBoundary(input, end) == LastBoundary(input, maxBytes)
      decreases end
    {
      end := end - 1;
    }
    r := input[..end];
  }

  lemma InsideACharacter(s: string, i: nat)
    requires s != "" && 0 < i < |Encode(s[0])|
    ensures !IsCharBoundary(Utf8(s), i)
  {
    assert Utf8(s)[i] == Encode(s[0])[i];
  }

  // The boundaries of an encoded text are the ends of its prefixes.
  lemma {:induction false} BoundaryIsPrefix(s: string, i: nat)
    requires i <= |Utf8(s)| && IsCharBoundary(Utf8(s), i)
    ensures exists n :: 0 <= n <= |s| && |Utf8(s[..n])| == i && Utf8(s[..n]) == Utf8(s)[..i]
    decreases |s|
  {
    if i == 0 {
      assert s[..0] == "" && Utf8(s[..0]) == Utf8(s)[..0];
    } else if s != "" {
      var head := Encode(s[0]);
      assert Utf8(s)[..|head|] == head;
      if i < |head| {
        InsideACharacter(s, i);
      } else {
        var rest := Utf8(s[1..]);
        assert i < |Utf8(s)| ==> Utf8(s)[i] == rest[i - |head|];
        BoundaryIsPrefix(s[1..], i - |head|);
        var n :| 0 <= n <= |s| - 1 && |Utf8(s[1..][..n])| == i - |head| && Utf8(s[1..][..n]) == rest[..i - |head|];
        PrefixEncodes(s, n);
        assert Utf8(s)[..i] == head + rest[..i - |head|];
      }
    }
  }

  lemma PrefixEncodes(s: string, n: nat)
    requires s != "" && n <= |s| - 1
    ensures Utf8(s[..n + 1]) == Encode(s[0]) + Utf8(s[1..][..n])
  {
    assert s[..n + 1][1..] == s[1..][..n];
  }

  lemma PrefixIsBoundary(s: string, n: nat)
    requires n <= |s|
    ensures |Utf8(s[..n])| <= |Utf8(s)| && IsCharBoundary(Utf8(s), |Utf8(s[..n])|)
    ensures Utf8(s)[..|Utf8(s[..n])|] == Utf8(s[..n])
  {
    Utf8Append(s[..n], s[n..]);
    assert s == s[..n] + s[n..];
    var k := |Utf8(s[..n])|;
    if k < |Utf8(s)| {
      assert Utf8(s)[k] == Utf8(s[n..])[0];
      assert s[n..] != "";
    }
  }

  // Truncation keeps the longest prefix of whole characters that fits.
  ghost predicate IsLongestFit(s: string, n: nat, maxBytes: nat) {
    && n <= |s| && |Utf8(s[..n])| <= maxBytes
    && forall m :: n < m <= |s| ==> |Utf8(s[..m])| > maxBytes
  }

  lemma TruncationIsLongestFit(s: string, maxBytes: nat)
    requires |Utf8(s)| > maxBytes
    ensures exists n: nat :: IsLongestFit(s, n, maxBytes)
                        && Utf8(s)[..LastBoundary(Utf8(s), maxBytes)] == Utf8(s[..n])
  {
    var end := LastBoundary(Utf8(s), maxBytes);
    BoundaryIsPrefix(s, end);
    var n :| 0 <= n <= |s| && |Utf8(s[..n])| == end && Utf8(s[..n]) == Utf8(s)[..end];
    forall m | n < m <= |s| ensures |Utf8(s[..m])| > maxBytes {
      PrefixIsBoundary(s, m);
      LongerPrefix(s, n, m);
    }
    assert IsLongestFit(s, n, maxBytes);
  }

  lemma LongerPrefix(s: string, n: nat, m: nat)
    requires n < m <= |s|
    ensures |Utf8(s[..n])| < |Utf8(s[..m])|
  {
    Utf8Append(s[..n], s[n..m]);
    assert s[..m] == s[..n] + s[n..m];
  }

  // Scrubbed and then truncated, a text still shows no token.
  lemma TruncatedShowsNoToken(s: string, maxBytes: nat)
    ensures exists shown :: !Leaks(shown)
              && Utf8(shown) == var b := Utf8(SkRedacted(s));
                                if |b| <= maxBytes then b else b[..LastBoundary(b, maxBytes)]
  {
    var out := SkRedacted(s);
    if |Utf8(out)| <= maxBytes {
      NoTokenIsLeft(s, |out|);
      assert out[..|out|] == out;
    } else {
      TruncationIsLongestFit(out, maxBytes);
      var n: nat :| IsLongestFit(out, n, maxBytes) && Utf8(out)[..LastBoundary(Utf8(out), maxBytes)] == Utf8(out[..n]);
      NoTokenIsLeft(s, n);
    }
  }
}
