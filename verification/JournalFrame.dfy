// The checksummed frame around one record (crates/event-journal/src/frame.rs).
module JournalFrame {
  import opened Wrappers
  import opened Bytes
  import opened JournalStorage
  import opened JournalLines
  import opened JournalRuns

  const MAX_JOURNAL_PAYLOAD_BYTES: nat := MAX_JOURNAL_RECORD_BYTES - 4096
  const FRAME_SCHEMA := "evo.session.frame"
  const FRAME_VERSION: nat := 2
  const MAX_U32: nat := 0xFFFF_FFFF

  datatype Metadata = Metadata(schema: string, version: nat, payloadBytes: nat, sha256: seq<byte>)

  datatype DurableFrame = DurableFrame(metadata: Metadata, payload: seq<byte>)

  // The serializer, the parsers and the digest, which are not modelled further.
  datatype Format<!V> = Format(serialize: V -> Option<seq<byte>>, digest: seq<byte> -> seq<byte>,
                               parseFrame: seq<byte> -> Option<DurableFrame>,
                               parsePayload: seq<byte> -> Option<V>)

  // ---------------------------------------------------------------- text of a frame

  predicate IsAscii(s: string) {
    forall i :: 0 <= i < |s| ==> s[i] as int < 0x80 && s[i] != '\n'
  }

  function Ascii(s: string): (b: seq<byte>)
    requires IsAscii(s)
    ensures |b| == |s|
    ensures forall i :: 0 <= i < |b| ==> b[i] == s[i] as int && b[i] != NL
  {
    seq(|s|, i requires 0 <= i < |s| => s[i] as int as byte)
  }

  function Decimal(n: nat): (b: seq<byte>)
    ensures forall i :: 0 <= i < |b| ==> 0x30 <= b[i] <= 0x39
  {
    if n < 10 then [0x30 + n] else Decimal(n / 10) + [0x30 + n % 10]
  }

  lemma {:induction false} DecimalLength(n: nat, digits: nat, bound: nat)
    requires digits >= 1 && n < bound && bound == Pow10(digits)
    ensures |Decimal(n)| <= digits
  {
    if n >= 10 {
      DecimalLength(n / 10, digits - 1, Pow10(digits - 1));
    }
  }

  function Pow10(k: nat): nat {
    if k == 0 then 1 else 10 * Pow10(k - 1)
  }

  const FRAME := "{\"_evo_frame\":{"
  const SCHEMA := "\"schema\":\"evo.session.frame\""
  const VERSION := ",\"version\":2"
  const LENGTH := ",\"payload_bytes\":"
  const DIGEST := ",\"sha256\":\""
  const PAYLOAD := "\"},\"payload\":"

  lemma LiteralsAreAscii()
    ensures IsAscii(FRAME) && IsAscii(SCHEMA) && IsAscii(VERSION)
    ensures IsAscii(LENGTH) && IsAscii(DIGEST) && IsAscii(PAYLOAD)
    ensures |FRAME| + |SCHEMA| + |VERSION| + |LENGTH| + |DIGEST| + |PAYLOAD| < 128
  {
  }

  // The compact JSON text of a frame, without its newline.
  function Render(payload: seq<byte>, sha256: seq<byte>): seq<byte> {
    LiteralsAreAscii();
    Ascii(FRAME) + Ascii(SCHEMA) + Ascii(VERSION) + Ascii(LENGTH) + Decimal(|payload|)
    + Ascii(DIGEST) + sha256 + Ascii(PAYLOAD) + payload + [0x7D]
  }

  // The number that a text of digits writes.
  function Written(b: seq<byte>): int {
    if b == [] then 0 else 10 * Written(b[..|b| - 1]) + (b[|b| - 1] as int - 0x30)
  }

  /** A length is written in full, without a leading zero. */
  lemma {:induction false} DecimalReadsBack(n: nat)
    ensures Written(Decimal(n)) == n && Decimal(n) != [] && (n > 0 ==> Decimal(n)[0] != 0x30)
  {
    if n >= 10 {
      DecimalReadsBack(n / 10);
      assert Decimal(n)[..|Decimal(n)| - 1] == Decimal(n / 10);
    }
  }

  // ---------------------------------------------------------------- encoding and decoding

  function EncodeJsonRecord<V>(record: V, format: Format<V>): Result<seq<byte>, JournalError> {
    match format.serialize(record)
    case None => Err(CodecFailed)
    case Some(payload) =>
      if |payload| > MAX_JOURNAL_PAYLOAD_BYTES then Err(WriteRejected)
      else if |payload| > MAX_U32 then Err(WriteRejected)
      else
        var framed := Render(payload, format.digest(payload));
        if |framed| + 1 > MAX_JOURNAL_RECORD_BYTES then Err(WriteRejected)
        else Ok(framed + [NL])
  }

  function DecodeJsonValue<V>(line: seq<byte>, format: Format<V>): Result<V, JournalError> {
    match format.parseFrame(line)
    case None => Err(Corrupt)
    case Some(frame) =>
      if frame.metadata.schema != FRAME_SCHEMA || frame.metadata.version != FRAME_VERSION then Err(Unsupported)
      else if |frame.payload| > MAX_JOURNAL_PAYLOAD_BYTES then Err(Corrupt)
      else if frame.metadata.payloadBytes != |frame.payload| then Err(Corrupt)
      else if frame.metadata.sha256 != format.digest(frame.payload) then Err(Corrupt)
      else
        match format.parsePayload(frame.payload)
        case None => Err(CodecFailed)
        case Some(value) => Ok(value)
  }

  // What is assumed of the serializer, the digest and the parsers: compact text without newlines,
  // 64 hexadecimal digits, parsing undoes rendering, and no strict prefix of a rendered frame parses.
  ghost predicate Lawful<V(!new)>(format: Format<V>) {
    && (forall v: V :: format.serialize(v).Some? ==>
      && NL !in format.serialize(v).value
      && format.parsePayload(format.serialize(v).value) == Some(v))
    && (forall p: seq<byte> :: |format.digest(p)| == 64 && NL !in format.digest(p))
    && (forall v: V :: format.serialize(v).Some? ==>
      var p := format.serialize(v).value;
      format.parseFrame(Render(p, format.digest(p)))
        == Some(DurableFrame(Metadata(FRAME_SCHEMA, FRAME_VERSION, |p|, format.digest(p)), p)))
    && (forall v: V, n: nat :: format.serialize(v).Some? ==>
      var p := format.serialize(v).value;
      var text := Render(p, format.digest(p));
      0 < n < |text| ==> format.parseFrame(text[..n]) == None)
  }

  lemma RenderedSize(payload: seq<byte>, sha256: seq<byte>)
    requires |payload| <= MAX_JOURNAL_PAYLOAD_BYTES && |sha256| == 64
    requires NL !in payload && NL !in sha256
    ensures var text := Render(payload, sha256);
      && 2 <= |text| < MAX_JOURNAL_RECORD_BYTES
      && NL !in text
      && text[|text| - 1] == 0x7D
  {
    LiteralsAreAscii();
    assert Pow10(7) == 10_000_000;
    DecimalLength(|payload|, 7, Pow10(7));
  }

  /** Any record whose payload passes the payload limit is encoded: the later size rejections never
      happen, the frame holds a single newline, at its end, and decoding its body gives the record back. */
  lemma EncodeThenDecode<V(!new)>(record: V, format: Format<V>)
    requires Lawful(format)
    ensures var payload := format.serialize(record);
      var encoded := EncodeJsonRecord(record, format);
      && (encoded.Ok? <==> payload.Some? && |payload.value| <= MAX_JOURNAL_PAYLOAD_BYTES)
      && (encoded.Err? ==> encoded.error == if payload.None? then CodecFailed else WriteRejected)
      && (encoded.Ok? ==>
        && IsLine(encoded.value)
        && DecodeJsonValue(Body(encoded.value), format) == Ok(record))
  {
    var payload := format.serialize(record);
    if payload.Some? && |payload.value| <= MAX_JOURNAL_PAYLOAD_BYTES {
      var text := Render(payload.value, format.digest(payload.value));
      RenderedSize(payload.value, format.digest(payload.value));
      assert Body(text + [NL]) == text;
    }
  }

  /** Which lines decode: exactly those that parse to a frame of this schema and version whose length and checksum
      are those of its payload, which must itself parse; and what every other line is refused as. */
  lemma DecodedOnlyIfIntact<V>(line: seq<byte>, format: Format<V>)
    ensures var decoded := DecodeJsonValue(line, format);
      match format.parseFrame(line)
      case None => decoded == Err(Corrupt)
      case Some(frame) =>
        var p, m := frame.payload, frame.metadata;
        var known := m.schema == "evo.session.frame" && m.version == 2;
        var intact := |p| <= 1_044_480 && m.payloadBytes == |p| && m.sha256 == format.digest(p);
        && (forall v :: decoded == Ok(v) <==> known && intact && format.parsePayload(p) == Some(v))
        && (decoded == Err(Unsupported) <==> !known)
        && (decoded == Err(Corrupt) <==> known && !intact)
        && (decoded == Err(CodecFailed) <==> known && intact && format.parsePayload(p) == None)
  {
  }

  /** A line that carries the metadata of an encoded record beside another payload is corrupt, unless the digest
      of the two payloads is the same; and a line with its payload beside another length or checksum is corrupt. */
  lemma TamperingIsDetected<V(!new)>(record: V, line: seq<byte>, format: Format<V>)
    requires Lawful(format) && EncodeJsonRecord(record, format).Ok? && format.parseFrame(line).Some?
    requires var encoded := Body(EncodeJsonRecord(record, format).value);
      format.parseFrame(encoded).Some? ==>
        var original, frame := format.parseFrame(encoded).value, format.parseFrame(line).value;
        || (frame.metadata == original.metadata && format.digest(frame.payload) != format.digest(original.payload))
        || (frame.payload == original.payload
            && frame.metadata.schema == original.metadata.schema
            && frame.metadata.version == original.metadata.version
            && frame.metadata != original.metadata)
    ensures DecodeJsonValue(line, format) == Err(Corrupt)
  {
    var p := format.serialize(record).value;
    assert Body(EncodeJsonRecord(record, format).value) == Render(p, format.digest(p));
  }

  /** Encoded records are frames in the sense of the crash-recovery theorems. */
  lemma EncodedIsFrame<V(!new)>(record: V, format: Format<V>)
    requires Lawful(format) && EncodeJsonRecord(record, format).Ok?
    ensures IsFrame(EncodeJsonRecord(record, format).value, line => DecodeJsonValue(line, format).Ok?)
  {
    EncodeThenDecode(record, format);
    var f := EncodeJsonRecord(record, format).value;
    forall n | 0 < n < |f| - 1 ensures DecodeJsonValue(f[..n], format).Err? {
      assert Body(f)[..n] == f[..n];
      assert format.parseFrame(Body(f)).Some?;
    }
  }
}
