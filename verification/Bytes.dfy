// Byte strings, newline search and concatenation of frames.
module Bytes {
  type byte = x: int | 0 <= x < 0x100

  const NL: byte := 10
  const CR: byte := 13

  function Min(a: nat, b: nat): nat {
    if a <= b then a else b
  }

  // Index of the first newline, or the length when there is none.
  function FirstNewline(b: seq<byte>): (k: nat)
    ensures k <= |b|
    ensures k < |b| ==> b[k] == NL
    ensures forall i :: 0 <= i < k ==> b[i] != NL
  {
    if b == [] || b[0] == NL then 0 else 1 + FirstNewline(b[1..])
  }

  // Start of the last line: one past the last newline, or 0 when there is none.
  function LastLineStart(b: seq<byte>): (k: nat)
    ensures k <= |b|
    ensures k > 0 ==> b[k - 1] == NL
    ensures forall i :: k <= i < |b| ==> b[i] != NL
  {
    if b == [] then 0
    else if b[|b| - 1] == NL then |b|
    else LastLineStart(b[..|b| - 1])
  }

  lemma {:induction false} LastLineStartAt(b: seq<byte>, k: nat)
    requires k <= |b| && (k > 0 ==> b[k - 1] == NL)
    requires forall i :: k <= i < |b| ==> b[i] != NL
    ensures LastLineStart(b) == k
  {
    if k < |b| {
      LastLineStartAt(b[..|b| - 1], k);
    }
  }

  lemma {:induction false} FirstNewlineAt(b: seq<byte>, k: nat)
    requires k < |b| && b[k] == NL
    requires forall i :: 0 <= i < k ==> b[i] != NL
    ensures FirstNewline(b) == k
  {
    if k > 0 {
      FirstNewlineAt(b[1..], k - 1);
    }
  }

  function Concat(frames: seq<seq<byte>>): (b: seq<byte>)
  {
    if frames == [] then [] else frames[0] + Concat(frames[1..])
  }

  lemma {:induction false} ConcatAppend(a: seq<seq<byte>>, b: seq<seq<byte>>)
    ensures Concat(a + b) == Concat(a) + Concat(b)
  {
    if a == [] {
      assert a + b == b;
    } else {
      ConcatAppend(a[1..], b);
      assert (a + b)[1..] == a[1..] + b;
      assert a[0] + (Concat(a[1..]) + Concat(b)) == (a[0] + Concat(a[1..])) + Concat(b);
    }
  }

  lemma ConcatSnoc(a: seq<seq<byte>>, f: seq<byte>)
    ensures Concat(a + [f]) == Concat(a) + f
  {
    ConcatAppend(a, [f]);
    assert Concat([f]) == f + Concat([]) == f;
  }
}
