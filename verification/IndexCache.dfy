// The on-disk index cache (crates/code-intelligence/src/cache.rs:158-312): a
// length-prefixed file, its reader, and its replacement through a temporary file.
module IndexCache {
  import opened Wrappers
  import opened Laws
  import opened Bytes

  const MAGIC: seq<byte> := [0x45, 0x56, 0x4F, 0x49, 0x58]
  const FORMAT_VERSION: byte := 1
  const INDEX_SCHEMA_VERSION: nat := 1
  const HEADER_LEN: nat := 10
  const TWO_TO_32: nat := 0x1_0000_0000
  const TWO_TO_64: nat := 0x1_0000_0000_0000_0000

  // ---------------------------------------------------------------- data

  datatype ParserVersion = Legacy | Version(n: nat)

  const MAX_ID_BYTES: nat := 128

  datatype IdentityParts = IdentityParts(workspace: string, revision: string, parserVersion: ParserVersion)

  // Workspaces and revisions are checked when they are made and when they are read.
  predicate IsIdentity(parts: IdentityParts) {
    1 <= |parts.workspace| <= MAX_ID_BYTES && 1 <= |parts.revision| <= MAX_ID_BYTES
  }

  type Identity = parts: IdentityParts | IsIdentity(parts)
    witness IdentityParts("workspace", "revision", Legacy)

  // The file baselines and the graph are one opaque part.
  datatype Entry<T> = Entry(schemaVersion: nat, builtAt: int, rest: T)

  datatype CacheError =
    | Corrupted
    | UnsupportedFormat
    | IdentityMismatch(expected: Identity, found: Identity)
    | Io

  datatype LoadOutcome<T> = Miss | Hit(entry: Entry<T>)

  // The JSON printers and parsers, which are not modelled further.
  datatype Format<!T> = Format(printIdentity: Identity -> Option<seq<byte>>,
                               parseIdentity: seq<byte> -> Option<Identity>,
                               printEntry: Entry<T> -> Option<seq<byte>>,
                               parseEntry: seq<byte> -> Option<Entry<T>>)

  // Parsing undoes printing, the JSON of an identity is short because its texts
  // are, and a vector never holds 2^63 bytes.
  ghost predicate Lawful<T(!new)>(format: Format<T>) {
    && (forall id: Identity :: format.printIdentity(id).Some? ==>
          |format.printIdentity(id).value| < TWO_TO_32
          && format.parseIdentity(format.printIdentity(id).value) == Some(id))
    && (forall e: Entry<T> :: format.printEntry(e).Some? ==>
          |format.printEntry(e).value| < TWO_TO_64 / 2
          && format.parseEntry(format.printEntry(e).value) == Some(e))
  }

  function SanitizeBuiltAt(builtAt: int): int {
    if builtAt < 0 then 0 else builtAt
  }

  function Sanitized<T>(e: Entry<T>): Entry<T> {
    e.(builtAt := SanitizeBuiltAt(e.builtAt))
  }

  // ---------------------------------------------------------------- little-endian lengths

  // The low bytes of n, least significant first.
  function LittleEndian(n: nat, width: nat): (b: seq<byte>)
    ensures |b| == width
  {
    if width == 0 then [] else [n % 256] + LittleEndian(n / 256, width - 1)
  }

  function FromLittleEndian(b: seq<byte>): nat {
    if b == [] then 0 else b[0] + 256 * FromLittleEndian(b[1..])
  }

  function Power256(width: nat): (p: nat)
    ensures p > 0
  {
    if width == 0 then 1 else 256 * Power256(width - 1)
  }

  lemma {:induction false} LittleEndianTruncates(n: nat, width: nat)
    ensures FromLittleEndian(LittleEndian(n, width)) == n % Power256(width)
    decreases width
  {
    if width > 0 {
      LittleEndianTruncates(n / 256, width - 1);
      var p := Power256(width - 1);
      assert LittleEndian(n, width)[1..] == LittleEndian(n / 256, width - 1);
      SplitRemainder(n, p);
    }
  }

  lemma SplitRemainder(n: nat, p: nat)
    requires p > 0
    ensures n % (256 * p) == n % 256 + 256 * (n / 256 % p)
    ensures n / (256 * p) == n / 256 / p
  {
    var q := n / 256 / p;
    var low := n % 256 + 256 * (n / 256 % p);
    assert n / 256 == p * q + n / 256 % p;
    assert n == 256 * p * q + low;
    assert 0 <= low < 256 * p;
    DivisionIsUnique(n, 256 * p, q, low);
  }

  // Byte i of a length counts its 256^i.
  lemma {:induction false} LittleEndianAt(n: nat, width: nat, i: nat)
    requires i < width
    ensures LittleEndian(n, width)[i] == n / Power256(i) % 256
    decreases i
  {
    if i > 0 {
      LittleEndianAt(n / 256, width - 1, i - 1);
      SplitRemainder(n, Power256(i - 1));
    }
  }

  lemma {:induction false} LittleEndianCovers(b: seq<byte>)
    ensures FromLittleEndian(b) < Power256(|b|)
    ensures LittleEndian(FromLittleEndian(b), |b|) == b
    decreases |b|
  {
    if b != [] {
      LittleEndianCovers(b[1..]);
      var v := FromLittleEndian(b[1..]);
      assert (b[0] + 256 * v) % 256 == b[0] && (b[0] + 256 * v) / 256 == v;
    }
  }

  lemma Powers()
    ensures Power256(4) == TWO_TO_32 && Power256(8) == TWO_TO_64
  {
    assert Power256(3) == 0x100_0000;
    assert Power256(6) == 0x1_0000_0000_0000;
  }

  // ---------------------------------------------------------------- the file

  // What save writes; the identity length is cut to 32 bits.
  function Image(identity: seq<byte>, payload: seq<byte>): (b: seq<byte>)
    ensures |b| == HEADER_LEN + |identity| + 8 + |payload|
  {
    MAGIC + [FORMAT_VERSION] + LittleEndian(|identity|, 4) + identity + LittleEndian(|payload|, 8) + payload
  }

  function ParseHeader<T>(bytes: seq<byte>, format: Format<T>): Result<(Identity, nat), CacheError> {
    if |bytes| < HEADER_LEN then Err(Corrupted)
    else if bytes[0..5] != MAGIC then Err(Corrupted)
    else if bytes[5] != FORMAT_VERSION then Err(UnsupportedFormat)
    else
      var identityEnd := HEADER_LEN + FromLittleEndian(bytes[6..10]);
      if identityEnd > |bytes| then Err(Corrupted)
      else
        match format.parseIdentity(bytes[HEADER_LEN..identityEnd])
        case None => Err(Corrupted)
        case Some(found) => Ok((found, identityEnd))
  }

  function ParsePayload<T>(bytes: seq<byte>, identityEnd: nat, format: Format<T>): Result<Entry<T>, CacheError> {
    var payloadStart := identityEnd + 8;
    if payloadStart > |bytes| then Err(Corrupted)
    else
      var payloadEnd := payloadStart + FromLittleEndian(bytes[identityEnd..payloadStart]);
      if payloadEnd > |bytes| then Err(Corrupted)
      else
        match format.parseEntry(bytes[payloadStart..payloadEnd])
        case None => Err(Corrupted)
        case Some(entry) =>
          if entry.schemaVersion != INDEX_SCHEMA_VERSION then Err(UnsupportedFormat)
          else Ok(Sanitized(entry))
  }

  function Parse<T>(bytes: seq<byte>, expected: Identity, format: Format<T>): Result<Entry<T>, CacheError> {
    match ParseHeader(bytes, format)
    case Err(e) => Err(e)
    case Ok((found, identityEnd)) =>
      if found != expected then Err(IdentityMismatch(expected, found))
      else ParsePayload(bytes, identityEnd, format)
  }

  // ---------------------------------------------------------------- printing and parsing

  lemma ImageParts(identity: seq<byte>, payload: seq<byte>, rest: seq<byte>)
    ensures var b := Image(identity, payload) + rest;
      var n := HEADER_LEN + |identity|;
      && b[0..5] == MAGIC && b[5] == FORMAT_VERSION
      && b[6..10] == LittleEndian(|identity|, 4)
      && b[HEADER_LEN..] == identity + LittleEndian(|payload|, 8) + payload + rest
      && b[n..n + 8] == LittleEndian(|payload|, 8)
      && b[n + 8..] == payload + rest
  {
    var header := MAGIC + [FORMAT_VERSION];
    var length, size := LittleEndian(|identity|, 4), LittleEndian(|payload|, 8);
    var b := Image(identity, payload) + rest;
    Regroup(header, length, identity, size, payload, rest);
    Slices(header, length, identity + size + payload + rest);
    Slices(header + length + identity, size, payload + rest);
    Slices([], header, length + (identity + size + payload + rest));
    assert b[0..6] == header && b[0..5] == b[0..6][0..5];
  }

  lemma Regroup(a: seq<byte>, b: seq<byte>, c: seq<byte>, d: seq<byte>, e: seq<byte>, f: seq<byte>)
    ensures a + b + c + d + e + f == a + b + (c + d + e + f)
    ensures a + b + c + d + e + f == a + b + c + d + (e + f)
    ensures a + b + c + d + e + f == [] + a + (b + (c + d + e + f))
  {
  }

  lemma Slices(a: seq<byte>, b: seq<byte>, c: seq<byte>)
    ensures (a + b + c)[|a|..|a| + |b|] == b && (a + b + c)[|a| + |b|..] == c
  {
  }

  // A file the reader takes for entry e of the given identity; bytes after the
  // payload are ignored.
  ghost predicate Holds<T(!new)>(bytes: seq<byte>, id: Identity, e: Entry<T>, format: Format<T>) {
    exists identity, payload, rest ::
      && bytes == Image(identity, payload) + rest
      && HoldsAs(identity, payload, id, e, format)
  }

  ghost predicate HoldsAs<T(!new)>(identity: seq<byte>, payload: seq<byte>, id: Identity, e: Entry<T>,
                                   format: Format<T>) {
    && |identity| < TWO_TO_32 && |payload| < TWO_TO_64
    && format.parseIdentity(identity) == Some(id) && format.parseEntry(payload) == Some(e)
    && e.schemaVersion == INDEX_SCHEMA_VERSION
  }

  lemma Small(n: nat, d: nat)
    requires n < d
    ensures n % d == n
  {
  }

  lemma ParsesWhatHolds<T(!new)>(identity: seq<byte>, payload: seq<byte>, rest: seq<byte>, id: Identity,
                                 e: Entry<T>, format: Format<T>)
    requires HoldsAs(identity, payload, id, e, format)
    ensures Parse(Image(identity, payload) + rest, id, format) == Ok(Sanitized(e))
  {
    var b := Image(identity, payload) + rest;
    var n := HEADER_LEN + |identity|;
    ImageParts(identity, payload, rest);
    Powers();
    LittleEndianTruncates(|identity|, 4);
    LittleEndianTruncates(|payload|, 8);
    Small(|identity|, TWO_TO_32);
    Small(|payload|, TWO_TO_64);
    assert b[HEADER_LEN..n] == b[HEADER_LEN..][..|identity|] == identity;
    assert ParseHeader(b, format) == Ok((id, n));
    assert b[n + 8..n + 8 + |payload|] == b[n + 8..][..|payload|] == payload;
  }

  lemma HoldsWhatParses<T(!new)>(bytes: seq<byte>, id: Identity, format: Format<T>)
    requires Parse(bytes, id, format).Ok?
    ensures exists e :: Holds(bytes, id, e, format) && Parse(bytes, id, format) == Ok(Sanitized(e))
  {
    var n := ParseHeader(bytes, format).value.1;
    var payloadEnd := n + 8 + FromLittleEndian(bytes[n..n + 8]);
    var identity, payload, rest := bytes[HEADER_LEN..n], bytes[n + 8..payloadEnd], bytes[payloadEnd..];
    Powers();
    LittleEndianCovers(bytes[6..10]);
    LittleEndianCovers(bytes[n..n + 8]);
    var e := format.parseEntry(payload).value;
    assert HoldsAs(identity, payload, id, e, format);
    Rebuild(bytes, n, payloadEnd);
    assert Holds(bytes, id, e, format);
  }

  lemma Rebuild(bytes: seq<byte>, n: nat, payloadEnd: nat)
    requires HEADER_LEN <= n && n + 8 <= payloadEnd <= |bytes|
    requires bytes[0..5] == MAGIC && bytes[5] == FORMAT_VERSION
    requires bytes[6..10] == LittleEndian(n - HEADER_LEN, 4)
    requires bytes[n..n + 8] == LittleEndian(payloadEnd - n - 8, 8)
    ensures bytes == Image(bytes[HEADER_LEN..n], bytes[n + 8..payloadEnd]) + bytes[payloadEnd..]
  {
    Pieces(bytes, 10, n, n + 8, payloadEnd);
    assert bytes[..10] == bytes[0..5] + [bytes[5]] + bytes[6..10];
  }

  lemma Pieces(b: seq<byte>, i: nat, j: nat, k: nat, m: nat)
    requires i <= j <= k <= m <= |b|
    ensures b == b[..i] + b[i..j] + b[j..k] + b[k..m] + b[m..]
  {
  }

  // The reader accepts exactly the images of what it returns.
  lemma ReaderIsExact<T(!new)>(bytes: seq<byte>, id: Identity, entry: Entry<T>, format: Format<T>)
    ensures Parse(bytes, id, format) == Ok(entry) <==> exists e :: Holds(bytes, id, e, format) && entry == Sanitized(e)
  {
    if Parse(bytes, id, format) == Ok(entry) {
      HoldsWhatParses(bytes, id, format);
    }
    if e :| Holds(bytes, id, e, format) && entry == Sanitized(e) {
      var identity, payload, rest :| bytes == Image(identity, payload) + rest
                                     && HoldsAs(identity, payload, id, e, format);
      ParsesWhatHolds(identity, payload, rest, id, e, format);
    }
  }

  // A saved entry is read back, its build time clamped: as it was if that is not negative, and at zero otherwise.
  lemma SavedIsReadBack<T(!new)>(id: Identity, e: Entry<T>, format: Format<T>)
    requires Lawful(format) && e.schemaVersion == INDEX_SCHEMA_VERSION
    requires format.printIdentity(id).Some? && format.printEntry(e).Some?
    ensures var read := Parse(Image(format.printIdentity(id).value, format.printEntry(e).value), id, format);
      && read == Ok(Sanitized(e))
      && (e.builtAt >= 0 ==> read == Ok(e))
      && (e.builtAt < 0 ==> read == Ok(e.(builtAt := 0)))
  {
    var identity, payload := format.printIdentity(id).value, format.printEntry(e).value;
    assert Image(identity, payload) + [] == Image(identity, payload);
    ParsesWhatHolds(identity, payload, [], id, e, format);
  }

  // The rule that says when a cache has to be rebuilt; reading a cache does not
  // consult it.
  function NeedsRebuild(cached: ParserVersion, current: nat): bool {
    match cached
    case Legacy => true
    case Version(n) => n != current
  }

  /** Of any file that is a hit: it has to be rebuilt under every version, by that rule, if and only if its
      reader is of the legacy parser; any other reader finds the version it expects. */
  lemma HitsThatNeedARebuild<T(!new)>(bytes: seq<byte>, id: Identity, format: Format<T>)
    requires Parse(bytes, id, format).Ok?
    ensures var cached := ParseHeader(bytes, format).value.0.parserVersion;
      && ((forall current :: NeedsRebuild(cached, current)) <==> id.parserVersion.Legacy?)
      && (id.parserVersion.Version? ==> !NeedsRebuild(cached, id.parserVersion.n))
  {
    if id.parserVersion.Version? {
      assert !NeedsRebuild(id.parserVersion, id.parserVersion.n);
    }
  }

  /** And a legacy cache, once saved, is such a hit. */
  lemma LegacyIsAHitAllTheSame<T(!new)>(id: Identity, e: Entry<T>, format: Format<T>)
    requires Lawful(format) && e.schemaVersion == INDEX_SCHEMA_VERSION && id.parserVersion.Legacy?
    requires format.printIdentity(id).Some? && format.printEntry(e).Some?
    ensures var bytes := Image(format.printIdentity(id).value, format.printEntry(e).value);
      && Parse(bytes, id, format) == Ok(Sanitized(e))
      && forall current :: NeedsRebuild(ParseHeader(bytes, format).value.0.parserVersion, current)
  {
    SavedIsReadBack(id, e, format);
    HitsThatNeedARebuild(Image(format.printIdentity(id).value, format.printEntry(e).value), id, format);
  }

  lemma Inside(b: seq<byte>, n: nat, i: nat, j: nat)
    requires i <= j <= n <= |b|
    ensures b[..n][i..j] == b[i..j]
  {
  }

  // A torn file is never taken for a cache.
  lemma StrictPrefixIsRefused<T(!new)>(id: Identity, e: Entry<T>, n: nat, expected: Identity, format: Format<T>)
    requires Lawful(format)
    requires format.printIdentity(id).Some? && format.printEntry(e).Some?
    requires n < |Image(format.printIdentity(id).value, format.printEntry(e).value)|
    ensures Parse(Image(format.printIdentity(id).value, format.printEntry(e).value)[..n], expected, format).Err?
  {
    var identity, payload := format.printIdentity(id).value, format.printEntry(e).value;
    var b := Image(identity, payload);
    assert b + [] == b;
    ImageParts(identity, payload, []);
    Powers();
    LittleEndianTruncates(|identity|, 4);
    LittleEndianTruncates(|payload|, 8);
    Small(|identity|, TWO_TO_32);
    Small(|payload|, TWO_TO_64);
    TornIsRefused(b, n, |identity|, expected, format);
  }

  lemma TornIsRefused<T(!new)>(b: seq<byte>, n: nat, k: nat, expected: Identity, format: Format<T>)
    requires n < |b| && HEADER_LEN + k + 8 <= |b|
    requires FromLittleEndian(b[6..10]) == k
    requires HEADER_LEN + k + 8 + FromLittleEndian(b[HEADER_LEN + k..HEADER_LEN + k + 8]) == |b|
    ensures Parse(b[..n], expected, format).Err?
  {
    if n >= HEADER_LEN {
      Inside(b, n, 6, 10);
      if HEADER_LEN + k <= n {
        Inside(b, n, HEADER_LEN, HEADER_LEN + k);
        if n >= HEADER_LEN + k + 8 {
          Inside(b, n, HEADER_LEN + k, HEADER_LEN + k + 8);
        }
      }
    }
  }

  // A file is a hit for one identity at most.
  lemma OtherIdentityIsRefused<T(!new)>(bytes: seq<byte>, id: Identity, other: Identity, format: Format<T>)
    requires Parse(bytes, id, format).Ok? && other != id
    ensures Parse(bytes, other, format) == Err(IdentityMismatch(other, id))
  {
  }

  // ---------------------------------------------------------------- what is refused, and as what

  // The start of a file: magic, a format version, the length of the identity, the identity.
  function Header(version: byte, identity: seq<byte>): (b: seq<byte>)
    ensures |b| == 10 + |identity|
  {
    MAGIC + [version] + LittleEndian(|identity|, 4) + identity
  }

  lemma HeaderParts(version: byte, identity: seq<byte>, after: seq<byte>)
    ensures var b := Header(version, identity) + after;
      && b[0..5] == MAGIC && b[5] == version && b[6..10] == LittleEndian(|identity|, 4)
      && b[10..10 + |identity|] == identity && b[10 + |identity|..] == after
  {
    var start, length := MAGIC + [version], LittleEndian(|identity|, 4);
    var b := Header(version, identity) + after;
    FourParts(start, length, identity, after);
    Slices([], start, length + identity + after);
    Slices(start, length, identity + after);
    Slices(start + length, identity, after);
    StartParts(b, version);
  }

  lemma StartParts(b: seq<byte>, version: byte)
    requires |b| >= 6 && b[0..6] == MAGIC + [version]
    ensures b[0..5] == MAGIC && b[5] == version
  {
    assert b[0..5] == b[0..6][0..5] && b[5] == b[0..6][5];
  }

  lemma FourParts(a: seq<byte>, b: seq<byte>, c: seq<byte>, d: seq<byte>)
    ensures a + b + c + d == [] + a + (b + c + d) && a + b + c + d == a + b + (c + d)
  {
  }

  lemma HeaderParses<T(!new)>(version: byte, identity: seq<byte>, after: seq<byte>, format: Format<T>)
    requires |identity| < TWO_TO_32
    ensures ParseHeader(Header(version, identity) + after, format) ==
            if version != 1 then Err(UnsupportedFormat)
            else match format.parseIdentity(identity)
                 case None => Err(Corrupted)
                 case Some(found) => Ok((found, 10 + |identity|))
  {
    HeaderParts(version, identity, after);
    Powers();
    LittleEndianTruncates(|identity|, 4);
    Small(|identity|, TWO_TO_32);
  }

  /** The start of a file decides first, whatever follows: no magic is corrupt, another format version is
      unsupported, an identity that does not parse or is cut off is corrupt, and that of another cache is named. */
  lemma HeaderDecides<T(!new)>(version: byte, identity: seq<byte>, after: seq<byte>, expected: Identity,
                               format: Format<T>)
    requires |identity| < TWO_TO_32
    ensures var read := Parse(Header(version, identity) + after, expected, format);
      && (version != 1 ==> read == Err(UnsupportedFormat))
      && (version == 1 && format.parseIdentity(identity) == None ==> read == Err(Corrupted))
      && (version == 1 && format.parseIdentity(identity).Some? && format.parseIdentity(identity).value != expected ==>
            read == Err(IdentityMismatch(expected, format.parseIdentity(identity).value)))
      && (version == 1 && format.parseIdentity(identity) == Some(expected) ==>
            read == ParsePayload(Header(version, identity) + after, 10 + |identity|, format))
  {
    HeaderParses(version, identity, after, format);
  }

  lemma TooShortOrForeign<T>(bytes: seq<byte>, expected: Identity, format: Format<T>)
    requires |bytes| < 10 || bytes[..5] != [0x45, 0x56, 0x4F, 0x49, 0x58]
    ensures Parse(bytes, expected, format) == Err(Corrupted)
  {
    if |bytes| >= 10 {
      assert bytes[0..5] == bytes[..5];
    }
  }

  lemma IdentityCutOff<T>(bytes: seq<byte>, expected: Identity, format: Format<T>)
    requires |bytes| >= 10 && bytes[5] == 1 && 10 + FromLittleEndian(bytes[6..10]) > |bytes|
    ensures Parse(bytes, expected, format) == Err(Corrupted)
  {
  }

  /** Behind the right identity the payload decides: cut off or unreadable it is corrupt, of another schema version
      it is unsupported, and otherwise it is a hit, whatever follows it. */
  lemma PayloadDecides<T(!new)>(identity: seq<byte>, length: nat, body: seq<byte>, expected: Identity,
                                format: Format<T>)
    requires |identity| < TWO_TO_32 && format.parseIdentity(identity) == Some(expected) && length < TWO_TO_64
    ensures var read := Parse(Header(1, identity) + (LittleEndian(length, 8) + body), expected, format);
      if length > |body| then read == Err(Corrupted)
      else match format.parseEntry(body[..length])
           case None => read == Err(Corrupted)
           case Some(e) =>
             if e.schemaVersion != 1 then read == Err(UnsupportedFormat)
             else read == Ok(e.(builtAt := if e.builtAt < 0 then 0 else e.builtAt))
  {
    var after := LittleEndian(length, 8) + body;
    var b, n := Header(1, identity) + after, 10 + |identity|;
    HeaderDecides(1, identity, after, expected, format);
    HeaderParts(1, identity, after);
    PayloadParses(b, n, length, body, format);
  }

  lemma PayloadParses<T(!new)>(b: seq<byte>, n: nat, length: nat, body: seq<byte>, format: Format<T>)
    requires n <= |b| && b[n..] == LittleEndian(length, 8) + body && length < TWO_TO_64
    ensures var read := ParsePayload(b, n, format);
      if length > |body| then read == Err(Corrupted)
      else match format.parseEntry(body[..length])
           case None => read == Err(Corrupted)
           case Some(e) =>
             if e.schemaVersion != 1 then read == Err(UnsupportedFormat)
             else read == Ok(e.(builtAt := if e.builtAt < 0 then 0 else e.builtAt))
  {
    Powers();
    LittleEndianTruncates(length, 8);
    Small(length, TWO_TO_64);
    PayloadAt(b, n, length, body);
  }

  lemma PayloadAt(b: seq<byte>, n: nat, length: nat, body: seq<byte>)
    requires n <= |b| && b[n..] == LittleEndian(length, 8) + body
    ensures |b| == n + 8 + |body| && b[n..n + 8] == LittleEndian(length, 8)
    ensures length <= |body| ==> b[n + 8..n + 8 + length] == body[..length]
  {
    assert b[n..n + 8] == b[n..][..8];
    if length <= |body| {
      assert b[n + 8..n + 8 + length] == b[n..][8..8 + length];
    }
  }

  lemma PayloadLengthCutOff<T(!new)>(identity: seq<byte>, after: seq<byte>, expected: Identity, format: Format<T>)
    requires |identity| < TWO_TO_32 && format.parseIdentity(identity) == Some(expected) && |after| < 8
    ensures Parse(Header(1, identity) + after, expected, format) == Err(Corrupted)
  {
    HeaderDecides(1, identity, after, expected, format);
  }
}
