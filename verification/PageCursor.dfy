/**
 Opaque page cursors: a fixed binary layout in base 64 without padding, beside an older form
 that is hexadecimal JSON. SHA-256 is any function to 32 bytes and the JSON parser of the
 older form any function to an optional cursor.
*/
module PageCursors {
  import opened Options
  import opened Bytes

  const PAGE_CURSOR_VERSION: Byte := 2
  const LEGACY_PAGE_CURSOR_VERSION: Byte := 1
  const CHECK_BYTES := 8
  const BASE_BYTES := 1 + 8 + 8 + 32

  type I64 = i: int | -0x8000_0000_0000_0000 <= i < 0x8000_0000_0000_0000
  type U64 = i: int | 0 <= i < 0x1_0000_0000_0000_0000

  type Digest = d: seq<Byte> | |d| == 32 witness seq(32, _ => 0)

  datatype PageCursor = PageCursor(version: Byte, generation: I64, offset: U64, scope: string, semanticSnapshot: Option<string>)

  /** Two's complement. */
  function AsUnsigned(i: I64): U64 {
    if i < 0 then i + 0x1_0000_0000_0000_0000 else i
  }

  function AsSigned(u: U64): I64 {
    if u < 0x8000_0000_0000_0000 then u else u - 0x1_0000_0000_0000_0000
  }

  lemma EightBytes()
    ensures Limit(8) == 0x1_0000_0000_0000_0000
  {
  }

  function Word(u: U64): (b: seq<Byte>)
    ensures |b| == 8
  {
    EightBytes();
    ToBigEndian(u, 8)
  }

  function WordValue(b: seq<Byte>): U64
    requires |b| == 8
  {
    EightBytes();
    FromBigEndian(b)
  }

  /** A 32-byte value written as 64 hexadecimal digits of either case. */
  predicate IsHash(s: string) {
    DecodeHex(s).Some? && |s| == 64
  }

  predicate Encodable(c: PageCursor) {
    IsHash(c.scope) && (c.semanticSnapshot.Some? ==> IsHash(c.semanticSnapshot.value))
  }

  function Payload(c: PageCursor): (b: seq<Byte>)
    requires Encodable(c)
    ensures |b| == BASE_BYTES + if c.semanticSnapshot.Some? then 32 else 0
  {
    [PAGE_CURSOR_VERSION] + Word(AsUnsigned(c.generation)) + Word(c.offset) + DecodeHex(c.scope).value +
    if c.semanticSnapshot.Some? then DecodeHex(c.semanticSnapshot.value).value else []
  }

  function Check(sha: seq<Byte> -> Digest, payload: seq<Byte>): (c: seq<Byte>)
    ensures |c| == CHECK_BYTES
  {
    sha(payload)[..CHECK_BYTES]
  }

  function Encoded(sha: seq<Byte> -> Digest, c: PageCursor): string
    requires Encodable(c)
  {
    EncodeBase64(Payload(c) + Check(sha, Payload(c)))
  }

  /** Encoding fails exactly on a scope or snapshot that is not a 32-byte hash. */
  method EncodePageCursorValue(sha: seq<Byte> -> Digest, cursor: PageCursor) returns (text: Option<string>)
    ensures text == if Encodable(cursor) then Some(Encoded(sha, cursor)) else None
  {
    var bytes := [PAGE_CURSOR_VERSION];
    bytes := bytes + Word(AsUnsigned(cursor.generation));
    bytes := bytes + Word(cursor.offset);
    var scope := DecodeHex(cursor.scope);
    if scope.None? || |scope.value| != 32 { return None; }
    bytes := bytes + scope.value;
    if cursor.semanticSnapshot.Some? {
      var snapshot := DecodeHex(cursor.semanticSnapshot.value);
      if snapshot.None? || |snapshot.value| != 32 { return None; }
      bytes := bytes + snapshot.value;
    }
    assert bytes == Payload(cursor);
    var check := sha(bytes);
    text := Some(EncodeBase64(bytes + check[..CHECK_BYTES]));
  }

  /** The binary form: fixed lengths and a matching check, or no cursor. */
  function DecodeBinary(sha: seq<Byte> -> Digest, bytes: seq<Byte>): Option<PageCursor> {
    if |bytes| != BASE_BYTES + CHECK_BYTES && |bytes| != BASE_BYTES + 32 + CHECK_BYTES then None
    else
      var payload := bytes[..|bytes| - CHECK_BYTES];
      if Check(sha, payload) != bytes[|bytes| - CHECK_BYTES..] then None
      else
        Some(PageCursor(PAGE_CURSOR_VERSION, AsSigned(WordValue(bytes[1..9])), WordValue(bytes[9..17]), EncodeHex(bytes[17..49]),
                        if |bytes| > BASE_BYTES + CHECK_BYTES then Some(EncodeHex(bytes[49..81])) else None))
  }

  function DecodeLegacy(parse: seq<Byte> -> Option<PageCursor>, value: string): Option<PageCursor> {
    match DecodeHex(value)
    case None => None
    case Some(bytes) =>
      match parse(bytes)
      case None => None
      case Some(c) => if c.version == LEGACY_PAGE_CURSOR_VERSION then Some(c) else None
  }

  predicate IsBinary(value: string) {
    var bytes := DecodeBase64(value);
    bytes.Some? && bytes.value != [] && bytes.value[0] == PAGE_CURSOR_VERSION
  }

  /** The binary form if the text decodes to it, otherwise the older form. */
  function DecodePageCursor(sha: seq<Byte> -> Digest, parse: seq<Byte> -> Option<PageCursor>, value: string): Option<PageCursor> {
    if IsBinary(value) then DecodeBinary(sha, DecodeBase64(value).value) else DecodeLegacy(parse, value)
  }

  // -------------------------------------------------------------------
  // Round trips
  // -------------------------------------------------------------------

  lemma WordRoundTrip(u: U64)
    ensures WordValue(Word(u)) == u
  {
    EightBytes();
    BigEndianRoundTrip(u, 8);
  }

  lemma WordCanonical(b: seq<Byte>)
    requires |b| == 8
    ensures Word(WordValue(b)) == b
  {
    BigEndianCanonical(b);
  }

  /** What an encoded cursor decodes to: itself in version 2, with its hashes in lower case. */
  function Normal(c: PageCursor): PageCursor {
    c.(version := PAGE_CURSOR_VERSION, scope := Lowered(c.scope),
       semanticSnapshot := if c.semanticSnapshot.None? then None else Some(Lowered(c.semanticSnapshot.value)))
  }

  lemma PayloadFields(c: PageCursor, check: seq<Byte>)
    requires Encodable(c) && |check| == CHECK_BYTES
    ensures var b := Payload(c) + check;
            && b[0] == PAGE_CURSOR_VERSION
            && b[1..9] == Word(AsUnsigned(c.generation))
            && b[9..17] == Word(c.offset)
            && b[17..49] == DecodeHex(c.scope).value
            && (c.semanticSnapshot.Some? ==> b[49..81] == DecodeHex(c.semanticSnapshot.value).value)
            && b[..|b| - CHECK_BYTES] == Payload(c)
            && b[|b| - CHECK_BYTES..] == check
  {
  }

  /** Decoding an encoded cursor gives it back; exactly when it was in normal form, unchanged. */
  lemma CursorRoundTrip(sha: seq<Byte> -> Digest, parse: seq<Byte> -> Option<PageCursor>, c: PageCursor)
    requires Encodable(c)
    ensures DecodePageCursor(sha, parse, Encoded(sha, c)) == Some(Normal(c))
    ensures DecodePageCursor(sha, parse, Encoded(sha, c)) == Some(c) <==>
              && c.version == PAGE_CURSOR_VERSION && Lowered(c.scope) == c.scope
              && (c.semanticSnapshot.Some? ==> Lowered(c.semanticSnapshot.value) == c.semanticSnapshot.value)
  {
    BinaryRoundTrip(sha, c);
    Base64RoundTrip(Payload(c) + Check(sha, Payload(c)));
  }

  lemma BinaryRoundTrip(sha: seq<Byte> -> Digest, c: PageCursor)
    requires Encodable(c)
    ensures var b := Payload(c) + Check(sha, Payload(c));
            b[0] == PAGE_CURSOR_VERSION && DecodeBinary(sha, b) == Some(Normal(c))
  {
    PayloadFields(c, Check(sha, Payload(c)));
    WordRoundTrip(AsUnsigned(c.generation));
    WordRoundTrip(c.offset);
    HexCanonical(c.scope);
    if c.semanticSnapshot.Some? {
      HexCanonical(c.semanticSnapshot.value);
    }
  }

  lemma CursorIsShort(sha: seq<Byte> -> Digest, c: PageCursor)
    requires Encodable(c)
    ensures |Encoded(sha, c)| == if c.semanticSnapshot.None? then 76 else 119
    ensures forall i | 0 <= i < |Encoded(sha, c)| :: Sextet(Encoded(sha, c)[i]).Some?
  {
    Base64Length(Payload(c) + Check(sha, Payload(c)));
  }

  lemma {:induction false} HexDigits(s: string, i: nat)
    requires DecodeHex(s).Some? && i < |s|
    ensures Nibble(s[i]).Some?
  {
    if i < 2 {
    } else {
      HexDigits(s[2..], i - 2);
    }
  }

  /** No hexadecimal text is ever taken for the binary form: a first byte of 2 forces a second symbol from g to v. */
  lemma HexIsNeverBinary(value: string)
    requires DecodeHex(value).Some?
    ensures !IsBinary(value)
  {
    if IsBinary(value) {
      var v0, v1 := Sextet(value[0]).value, Sextet(value[1]).value;
      assert v0 * 4 + v1 / 16 == 2;
      HexDigits(value, 0);
      HexDigits(value, 1);
      assert false;
    }
  }

  /** Cursors of the older form stay readable: the hexadecimal text of any JSON the parser accepts decodes to its cursor. */
  lemma LegacyRoundTrip(sha: seq<Byte> -> Digest, parse: seq<Byte> -> Option<PageCursor>, json: seq<Byte>)
    requires parse(json).Some? && parse(json).value.version == LEGACY_PAGE_CURSOR_VERSION
    ensures DecodePageCursor(sha, parse, EncodeHex(json)) == parse(json)
  {
    HexRoundTrip(json);
    HexIsNeverBinary(EncodeHex(json));
  }

  lemma PayloadOfDecoded(sha: seq<Byte> -> Digest, bytes: seq<Byte>)
    requires bytes != [] && bytes[0] == PAGE_CURSOR_VERSION && DecodeBinary(sha, bytes).Some?
    ensures var c := DecodeBinary(sha, bytes).value;
            Encodable(c) && Payload(c) == bytes[..|bytes| - CHECK_BYTES]
  {
    var c := DecodeBinary(sha, bytes).value;
    WordCanonical(bytes[1..9]);
    WordCanonical(bytes[9..17]);
    HexRoundTrip(bytes[17..49]);
    if c.semanticSnapshot.Some? {
      HexRoundTrip(bytes[49..81]);
    }
    FieldsOf(bytes, |bytes| - CHECK_BYTES);
  }

  lemma FieldsOf(bytes: seq<Byte>, n: nat)
    requires 49 <= n <= |bytes|
    ensures bytes[..n] == [bytes[0]] + bytes[1..9] + bytes[9..17] + bytes[17..49] + bytes[49..n]
  {
  }

  /** A text accepted in the binary form is the one text that its cursor encodes to: an altered copy is refused or another cursor. */
  lemma BinaryCanonical(sha: seq<Byte> -> Digest, parse: seq<Byte> -> Option<PageCursor>, value: string)
    requires IsBinary(value) && DecodePageCursor(sha, parse, value).Some?
    ensures var c := DecodePageCursor(sha, parse, value).value; Encodable(c) && Encoded(sha, c) == value
  {
    var bytes := DecodeBase64(value).value;
    PayloadOfDecoded(sha, bytes);
    Base64Canonical(value);
    assert bytes == bytes[..|bytes| - CHECK_BYTES] + bytes[|bytes| - CHECK_BYTES..];
  }

  // -------------------------------------------------------------------
  // The offset a request asks for
  // -------------------------------------------------------------------

  datatype PageOffset = Current(offset: U64) | Stale | Refused

  function PageOffsetWithSnapshot(sha: seq<Byte> -> Digest, parse: seq<Byte> -> Option<PageCursor>, cursor: Option<string>,
                                  offset: U64, generation: I64, scope: string, semanticSnapshot: Option<string>): PageOffset
  {
    if cursor.None? then Current(offset)
    else if offset != 0 then Refused
    else
      match DecodePageCursor(sha, parse, cursor.value)
      case None => Refused
      case Some(c) =>
        if c.scope != scope then Refused
        else if c.generation != generation || c.semanticSnapshot != semanticSnapshot then Stale
        else Current(c.offset)
  }

  /**
   A request without a cursor starts where it says. A cursor continues its own request on its own
   snapshot, is stale on any other snapshot, and is refused by any other request and beside any offset.
  */
  lemma IssuedCursorContinues(sha: seq<Byte> -> Digest, parse: seq<Byte> -> Option<PageCursor>, c: PageCursor,
                              generation: I64, scope: string, semanticSnapshot: Option<string>)
    requires Encodable(c) && Normal(c) == c
    ensures PageOffsetWithSnapshot(sha, parse, Some(Encoded(sha, c)), 0, generation, scope, semanticSnapshot) ==
            if c.scope != scope then Refused
            else if c.generation == generation && c.semanticSnapshot == semanticSnapshot then Current(c.offset)
            else Stale
    ensures forall offset: U64 ::
              && PageOffsetWithSnapshot(sha, parse, None, offset, generation, scope, semanticSnapshot) == Current(offset)
              && (offset > 0 ==>
                    PageOffsetWithSnapshot(sha, parse, Some(Encoded(sha, c)), offset, generation, scope, semanticSnapshot) == Refused)
  {
    CursorRoundTrip(sha, parse, c);
  }
}
