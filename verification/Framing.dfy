/**
 The LSP base protocol: messages are written as a Content-Length header block and a body, and
 read back from a buffered reader that hands out the stream in chunks of any size.
*/
module Framing {
  import opened Options
  import opened Bytes
  import opened Sequences
  import opened Unicode
  import opened Decimals

  const MAX_MESSAGE_BYTES := 8 * 1024 * 1024
  const MAX_HEADER_BYTES := 16 * 1024
  const LF: Byte := 10

  // -------------------------------------------------------------------
  // Header text
  // -------------------------------------------------------------------

  function TrimStart(s: string, trimmed: char -> bool): string {
    if s != [] && trimmed(s[0]) then TrimStart(s[1..], trimmed) else s
  }

  function TrimEnd(s: string, trimmed: char -> bool): string {
    if s != [] && trimmed(s[|s| - 1]) then TrimEnd(s[..|s| - 1], trimmed) else s
  }

  /** The Unicode White_Space characters, which `str::trim` removes. */
  predicate IsWhitespace(c: char) {
    var n := c as int;
    9 <= n <= 13 || n == 32 || n == 0x85 || n == 0xA0 || n == 0x1680 || 0x2000 <= n <= 0x200A
    || n == 0x2028 || n == 0x2029 || n == 0x202F || n == 0x205F || n == 0x3000
  }

  predicate IsLineEnd(c: char) { c == '\r' || c == '\n' }

  function IndexOfColon(s: string): (i: nat)
    ensures i <= |s|
  {
    if s == [] || s[0] == ':' then 0 else 1 + IndexOfColon(s[1..])
  }

  function Lower(c: char): char {
    if 'A' <= c <= 'Z' then c + 32 as char else c
  }

  predicate IsContentLength(name: string) {
    |name| == 14 && forall i | 0 <= i < 14 :: Lower(name[i]) == "content-length"[i]
  }

  /** The name is recognised in any mixture of cases. */
  lemma NameInAnyCase(name: string)
    ensures IsContentLength(name) <==>
              |name| == 14 && forall i | 0 <= i < 14 :: name[i] == "content-length"[i] || name[i] == "CONTENT-LENGTH"[i]
  {
    var lower, upper := "content-length", "CONTENT-LENGTH";
    assert forall i | 0 <= i < 14 :: Lower(upper[i]) == lower[i] == Lower(lower[i]);
    assert forall i, c: char | 0 <= i < 14 && Lower(c) == lower[i] :: c == lower[i] || c == upper[i];
  }

  datatype ReadError =
    | HeadersTooLong | HeadersTruncated | HeaderNotUtf8 | RepeatedLength | InvalidLength
    | MessageTooLong | MissingLength | BodyTruncated

  datatype Header = Blank | Other | Length(n: nat) | Bad(error: ReadError)

  /** One header line: blank, irrelevant, or a Content-Length with its value. */
  function ParseHeader(line: seq<Byte>): Header {
    match DecodeUtf8(line)
    case None => Bad(HeaderNotUtf8)
    case Some(text) => ParseField(TrimEnd(text, IsLineEnd))
  }

  function ParseField(line: string): Header {
    if line == [] then Blank
    else
      var colon := IndexOfColon(line);
      if colon == |line| || !IsContentLength(line[..colon]) then Other
      else
        match ParseUsize(TrimEnd(TrimStart(line[colon + 1..], IsWhitespace), IsWhitespace))
        case None => Bad(InvalidLength)
        case Some(n) => Length(n)
  }

  // -------------------------------------------------------------------
  // The stream as a whole
  // -------------------------------------------------------------------

  datatype HeaderLine = NoLine | Line(bytes: seq<Byte>) | Failed(error: ReadError)

  function LineLength(s: seq<Byte>): (n: nat)
    ensures n <= |s|
    ensures s != [] ==> n > 0
  {
    if s == [] then 0 else if s[0] == LF then 1 else 1 + LineLength(s[1..])
  }

  /** The next line of a stream within a byte budget. */
  function NextLine(s: seq<Byte>, budget: nat): (r: HeaderLine)
    ensures r.Line? ==> r.bytes <= s && 0 < |r.bytes| <= budget
  {
    var n := LineLength(s);
    if s == [] then NoLine
    else if n > budget then Failed(HeadersTooLong)
    else if s[n - 1] == LF then Line(s[..n])
    else Failed(HeadersTruncated)
  }

  datatype Received = End | Message(body: seq<Byte>) | Broken(error: ReadError)

  datatype Progress = Stop(received: Received, rest: seq<Byte>) | More(rest: seq<Byte>, headerBytes: nat, length: Option<nat>)

  /** What one header line does, given the stream after it and the header bytes used with it. */
  function Accept(header: Header, rest: seq<Byte>, used: nat, length: Option<nat>): (p: Progress)
    ensures p.More? ==> p.rest == rest && p.headerBytes == used
    ensures p.More? && (length.Some? ==> length.value <= MAX_MESSAGE_BYTES) ==>
              (p.length.Some? ==> p.length.value <= MAX_MESSAGE_BYTES)
    ensures p.Stop? && p.received.Message? ==>
              length.Some? && |p.received.body| == length.value && rest == p.received.body + p.rest
  {
    match header
    case Bad(e) => Stop(Broken(if e == InvalidLength && length.Some? then RepeatedLength else e), [])
    case Blank =>
      if length.None? then Stop(Broken(MissingLength), [])
      else if |rest| < length.value then Stop(Broken(BodyTruncated), [])
      else Stop(Message(rest[..length.value]), rest[length.value..])
    case Other => More(rest, used, length)
    case Length(n) =>
      if length.Some? then Stop(Broken(RepeatedLength), [])
      else if n > MAX_MESSAGE_BYTES then Stop(Broken(MessageTooLong), [])
      else More(rest, used, Some(n))
  }

  function Advance(s: seq<Byte>, headerBytes: nat, length: Option<nat>): (p: Progress)
    requires headerBytes <= MAX_HEADER_BYTES
    ensures p.More? ==> |p.rest| < |s| && p.headerBytes <= MAX_HEADER_BYTES
    ensures p.Stop? && p.received.Message? ==> |p.rest| < |s|
  {
    match NextLine(s, MAX_HEADER_BYTES - headerBytes)
    case NoLine => Stop(if headerBytes == 0 then End else Broken(HeadersTruncated), [])
    case Failed(e) => Stop(Broken(e), [])
    case Line(bytes) => Accept(ParseHeader(bytes), s[|bytes|..], headerBytes + |bytes|, length)
  }

  /** One message of a stream, and what the stream holds after it. */
  function Receive(s: seq<Byte>, headerBytes: nat, length: Option<nat>): (r: (Received, seq<Byte>))
    requires headerBytes <= MAX_HEADER_BYTES
    ensures r.0.Message? ==> |r.1| < |s|
    decreases |s|
  {
    match Advance(s, headerBytes, length)
    case Stop(received, rest) => (received, rest)
    case More(rest, used, next) => Receive(rest, used, next)
  }

  lemma ReceiveOn(s: seq<Byte>, headerBytes: nat, length: Option<nat>)
    requires headerBytes <= MAX_HEADER_BYTES
    ensures match Advance(s, headerBytes, length)
            case Stop(received, rest) => Receive(s, headerBytes, length) == (received, rest)
            case More(rest, used, next) => Receive(s, headerBytes, length) == Receive(rest, used, next)
  {
  }

  /** The shape of an accepted message: a bounded header block, a bounded body, then the rest of the stream. */
  ghost predicate Framed(s: seq<Byte>, headerBytes: nat, body: seq<Byte>, rest: seq<Byte>) {
    && |body| <= MAX_MESSAGE_BYTES
    && exists h | 0 < h <= MAX_HEADER_BYTES - headerBytes && h <= |s| :: s[h..] == body + rest
  }

  lemma FramedAfter(s: seq<Byte>, n: nat, headerBytes: nat, body: seq<Byte>, rest: seq<Byte>)
    requires n <= |s| && Framed(s[n..], headerBytes + n, body, rest)
    ensures Framed(s, headerBytes, body, rest)
  {
  }

  /** An accepted message is a header block of at most 16 KiB, then a body of at most 8 MiB, then the rest of the stream. */
  lemma {:induction false} ReceiveBounds(s: seq<Byte>, headerBytes: nat, length: Option<nat>)
    requires headerBytes <= MAX_HEADER_BYTES && (length.Some? ==> length.value <= MAX_MESSAGE_BYTES)
    requires Receive(s, headerBytes, length).0.Message?
    ensures var (m, rest) := Receive(s, headerBytes, length); Framed(s, headerBytes, m.body, rest)
    decreases |s|
  {
    var n := |NextLine(s, MAX_HEADER_BYTES - headerBytes).bytes|;
    var (m, after) := Receive(s, headerBytes, length);
    match Advance(s, headerBytes, length) {
      case Stop(_, _) =>
        assert s[n..] == m.body + after;
      case More(rest, used, next) =>
        ReceiveBounds(rest, used, next);
        FramedAfter(s, n, headerBytes, m.body, after);
    }
  }

  datatype Transcript = Transcript(messages: seq<seq<Byte>>, clean: bool)

  /** All messages up to the end of the stream, and whether it ended between messages. */
  function ReceiveAll(s: seq<Byte>): Transcript
    decreases |s|
  {
    match Receive(s, 0, None)
    case (End, _) => Transcript([], true)
    case (Broken(_), _) => Transcript([], false)
    case (Message(body), rest) => var later := ReceiveAll(rest); later.(messages := [body] + later.messages)
  }

  // -------------------------------------------------------------------
  // The buffered reader
  // -------------------------------------------------------------------

  /** A buffered reader over a stream; `chunks` is how the stream happens to arrive. */
  class BufferedReader {
    var buffer: seq<Byte>
    var stream: seq<Byte>
    var chunks: seq<nat>

    constructor (stream: seq<Byte>, chunks: seq<nat>)
      ensures Remaining() == stream
    {
      this.buffer, this.stream, this.chunks := [], stream, chunks;
    }

    ghost function Remaining(): seq<Byte>
      reads this
    {
      buffer + stream
    }

    method FillBuf() returns (available: seq<Byte>)
      modifies this
      ensures Remaining() == old(Remaining()) && available == buffer && available <= Remaining()
      ensures available == [] <==> Remaining() == []
    {
      if buffer == [] && stream != [] {
        var n := if chunks == [] || |stream| < chunks[0] then |stream| else if chunks[0] == 0 then 1 else chunks[0];
        chunks := if chunks == [] then [] else chunks[1..];
        buffer, stream := stream[..n], stream[n..];
      }
      available := buffer;
    }

    method Consume(count: nat)
      requires count <= |buffer|
      modifies this
      ensures Remaining() == old(Remaining())[count..]
    {
      buffer := buffer[count..];
    }

    /** `read_exact`: all of the bytes or an error. */
    method ReadExact(count: nat) returns (ok: bool, bytes: seq<Byte>)
      modifies this
      ensures ok <==> count <= |old(Remaining())|
      ensures ok ==> bytes == old(Remaining())[..count] && Remaining() == old(Remaining())[count..]
    {
      bytes := [];
      while |bytes| < count
        invariant |bytes| <= count && bytes + Remaining() == old(Remaining())
        decreases count - |bytes|
      {
        var available := FillBuf();
        if available == [] { return false, bytes; }
        var n := if |available| <= count - |bytes| then |available| else count - |bytes|;
        TakenFrom(bytes, Remaining(), available, n);
        bytes := bytes + available[..n];
        Consume(n);
      }
      ok := true;
    }
  }

  lemma TakenFrom(bytes: seq<Byte>, remaining: seq<Byte>, available: seq<Byte>, n: nat)
    requires available <= remaining && n <= |available|
    ensures bytes + available[..n] + remaining[n..] == bytes + remaining
  {
    assert available[..n] == remaining[..n];
  }

  predicate NoLineFeed(s: seq<Byte>, n: nat)
    requires n <= |s|
  {
    forall i | 0 <= i < n :: s[i] != LF
  }

  /** The first line goes at least to a position without a line feed before it, and ends there if it holds one or ends the text. */
  lemma {:induction false} LineEndsAt(s: seq<Byte>, n: nat)
    requires 0 < n <= |s| && forall i | 0 <= i < n - 1 :: s[i] != LF
    ensures n <= LineLength(s)
    ensures s[n - 1] == LF || n == |s| ==> LineLength(s) == n
  {
    if n <= 1 {
    } else {
      LineEndsAt(s[1..], n - 1);
    }
  }

  /** What reading `count` more bytes of a line says about the next line of the input. */
  lemma LineGrows(line: seq<Byte>, ahead: seq<Byte>, count: nat, budget: nat)
    requires NoLineFeed(line, |line|)
    requires 0 < count <= |ahead| && NoLineFeed(ahead, count - 1)
    ensures |line| + count > budget ==> NextLine(line + ahead, budget) == Failed(HeadersTooLong)
    ensures |line| + count <= budget && ahead[count - 1] == LF ==>
              NextLine(line + ahead, budget) == Line(line + ahead[..count])
    ensures ahead[count - 1] != LF ==> NoLineFeed(line + ahead[..count], |line| + count)
  {
    var input := line + ahead;
    LineEndsAt(input, |line| + count);
    if ahead[count - 1] == LF {
      assert input[..|line| + count] == line + ahead[..count];
    }
  }

  lemma Regroup(line: seq<Byte>, ahead: seq<Byte>, count: nat)
    requires count <= |ahead|
    ensures line + ahead == line + ahead[..count] + ahead[count..]
    ensures (line + ahead)[|line| + count..] == ahead[count..]
  {
  }

  /** The end of the first line of a chunk, or the whole chunk. */
  method LineCount(available: seq<Byte>) returns (count: nat)
    requires available != []
    ensures 0 < count <= |available| && NoLineFeed(available, count - 1)
    ensures available[count - 1] == LF || count == |available|
  {
    count := 0;
    while count < |available| && available[count] != LF
      invariant 0 <= count <= |available| && NoLineFeed(available, count)
    {
      count := count + 1;
    }
    if count < |available| {
      count := count + 1;
    }
  }

  /** However the stream is split, the line read is the next line of the stream. */
  method ReadHeaderLine(reader: BufferedReader, budget: nat) returns (r: HeaderLine)
    modifies reader
    ensures r == NextLine(old(reader.Remaining()), budget)
    ensures r.Line? ==> reader.Remaining() == old(reader.Remaining())[|r.bytes|..]
  {
    var line: seq<Byte> := [];
    ghost var input := reader.Remaining();
    while true
      invariant line + reader.Remaining() == input
      invariant NoLineFeed(line, |line|) && |line| <= budget
      decreases |reader.Remaining()|
    {
      ghost var ahead := reader.Remaining();
      var available := reader.FillBuf();
      if available == [] {
        assert line == input;
        if line == [] { return NoLine; }
        LineEndsAt(input, |input|);
        return Failed(HeadersTruncated);
      }
      var count := LineCount(available);
      LineGrows(line, ahead, count, budget);
      Regroup(line, ahead, count);
      if |line| + count > budget { return Failed(HeadersTooLong); }
      var finished := available[count - 1] == LF;
      assert available[..count] == ahead[..count];
      line := line + available[..count];
      reader.Consume(count);
      if finished {
        return Line(line);
      }
    }
  }

  method ReadMessage(reader: BufferedReader) returns (r: Received)
    modifies reader
    ensures r == Receive(old(reader.Remaining()), 0, None).0
    ensures r.Message? ==> reader.Remaining() == Receive(old(reader.Remaining()), 0, None).1
  {
    var contentLength: Option<nat> := None;
    var headerBytes: nat := 0;
    ghost var first := Receive(reader.Remaining(), 0, None);
    while true
      invariant headerBytes <= MAX_HEADER_BYTES
      invariant first == Receive(reader.Remaining(), headerBytes, contentLength)
      decreases |reader.Remaining()|
    {
      ghost var before := reader.Remaining();
      var line := ReadHeaderLine(reader, MAX_HEADER_BYTES - headerBytes);
      ghost var step := Advance(before, headerBytes, contentLength);
      ReceiveOn(before, headerBytes, contentLength);
      match line {
        case NoLine => return if headerBytes == 0 then End else Broken(HeadersTruncated);
        case Failed(e) => return Broken(e);
        case Line(bytes) =>
          headerBytes := headerBytes + |bytes|;
          match ParseHeader(bytes) {
            case Bad(e) => return Broken(if e == InvalidLength && contentLength.Some? then RepeatedLength else e);
            case Blank =>
              if contentLength.None? { return Broken(MissingLength); }
              var ok, body := reader.ReadExact(contentLength.value);
              assert ok ==> step == Stop(Message(body), reader.Remaining());
              return if ok then Message(body) else Broken(BodyTruncated);
            case Other =>
            case Length(n) =>
              if contentLength.Some? { return Broken(RepeatedLength); }
              if n > MAX_MESSAGE_BYTES { return Broken(MessageTooLong); }
              contentLength := Some(n);
          }
          assert step == More(reader.Remaining(), headerBytes, contentLength);
      }
    }
  }

  function After(messages: seq<seq<Byte>>, t: Transcript): Transcript {
    Transcript(messages + t.messages, t.clean)
  }

  lemma ReceivedFirst(input: seq<Byte>, messages: seq<seq<Byte>>)
    ensures var (first, rest) := Receive(input, 0, None);
            After(messages, ReceiveAll(input)) ==
            match first
            case End => Transcript(messages, true)
            case Broken(_) => Transcript(messages, false)
            case Message(body) => After(messages + [body], ReceiveAll(rest))
  {
  }

  /** The reader thread: messages until the stream ends or breaks. */
  method ReadResponses(reader: BufferedReader) returns (t: Transcript)
    modifies reader
    ensures t == ReceiveAll(old(reader.Remaining()))
  {
    var messages: seq<seq<Byte>> := [];
    ghost var all := ReceiveAll(reader.Remaining());
    assert After(messages, all) == all;
    while true
      invariant After(messages, ReceiveAll(reader.Remaining())) == all
      decreases |reader.Remaining()|
    {
      ghost var input := reader.Remaining();
      var next := ReadMessage(reader);
      ReceivedFirst(input, messages);
      match next {
        case End => return Transcript(messages, true);
        case Broken(_) => return Transcript(messages, false);
        case Message(body) => messages := messages + [body];
      }
    }
  }

  // -------------------------------------------------------------------
  // Writing, and the round trip
  // -------------------------------------------------------------------

  predicate IsAscii(s: string) {
    forall i | 0 <= i < |s| :: s[i] < 128 as char
  }

  function Ascii(s: string): (r: seq<Byte>)
    requires IsAscii(s)
    ensures |r| == |s|
  {
    seq(|s|, i requires 0 <= i < |s| => s[i] as Byte)
  }

  function LengthLine(n: nat): (line: string)
    ensures IsAscii(line)
  {
    "Content-Length: " + Decimal(n) + "\r\n"
  }

  function Frame(body: seq<Byte>): seq<Byte> {
    Ascii(LengthLine(|body|)) + Ascii("\r\n") + body
  }

  /** An oversized body is refused before anything is written. */
  method WriteMessage(output: seq<Byte>, body: seq<Byte>) returns (ok: bool, result: seq<Byte>)
    ensures ok <==> |body| <= MAX_MESSAGE_BYTES
    ensures result == if ok then output + Frame(body) else output
  {
    if |body| > MAX_MESSAGE_BYTES {
      return false, output;
    }
    result := output + (Ascii(LengthLine(|body|)) + Ascii("\r\n"));
    result := result + body;
    ok := true;
  }

  lemma {:induction false} AsciiDecodes(s: string)
    requires IsAscii(s)
    ensures DecodeUtf8(Ascii(s)) == Some(s)
  {
    if s == [] {
    } else {
      var bytes := Ascii(s);
      assert bytes[1..] == Ascii(s[1..]);
      AsciiDecodes(s[1..]);
      AsciiFirst(bytes);
      assert s == [s[0]] + s[1..];
    }
  }

  lemma AsciiFirst(bytes: seq<Byte>)
    requires bytes != [] && bytes[0] < 0x80
    ensures DecodeUtf8(bytes) == Cons(bytes[0] as char, DecodeUtf8(bytes[1..]))
  {
  }

  lemma {:induction false} ColonAt(s: string, k: nat)
    requires k < |s| && s[k] == ':' && forall i | 0 <= i < k :: s[i] != ':'
    ensures IndexOfColon(s) == k
  {
    if k == 0 {
    } else {
      ColonAt(s[1..], k - 1);
    }
  }

  lemma LengthValueTrimmed(digits: string)
    requires digits != [] && forall i | 0 <= i < |digits| :: IsDigit(digits[i])
    ensures TrimEnd(TrimStart(" " + digits, IsWhitespace), IsWhitespace) == digits
  {
    var text := " " + digits;
    DigitIsNoSpace(digits[0]);
    DigitIsNoSpace(digits[|digits| - 1]);
    assert text[1..] == digits;
    assert TrimStart(text, IsWhitespace) == TrimStart(digits, IsWhitespace) == digits;
  }

  lemma DigitIsNoSpace(c: char)
    requires IsDigit(c)
    ensures !IsWhitespace(c)
  {
  }

  lemma LineEndTrimmed(text: string)
    requires text != [] && !IsLineEnd(text[|text| - 1])
    ensures TrimEnd(text + "\r\n", IsLineEnd) == text
  {
    assert (text + "\r\n")[..|text| + 1] == text + "\r";
    assert (text + "\r")[..|text|] == text;
    assert TrimEnd(text + "\r", IsLineEnd) == TrimEnd(text, IsLineEnd);
  }

  lemma LengthFieldParsed(n: nat)
    requires n <= USIZE_MAX
    ensures ParseField("Content-Length" + ":" + (" " + Decimal(n))) == Length(n)
  {
    var digits, name := Decimal(n), "Content-Length";
    var text := name + ":" + (" " + digits);
    ColonAt(text, 14);
    assert text[..14] == name && IsContentLength(name);
    assert text[15..] == " " + digits;
    LengthValueTrimmed(digits);
    ParseDecimal(n);
  }

  lemma LengthHeaderParsed(n: nat)
    requires n <= USIZE_MAX
    ensures ParseHeader(Ascii(LengthLine(n))) == Length(n)
  {
    var text := "Content-Length" + ":" + (" " + Decimal(n));
    assert LengthLine(n) == text + "\r\n";
    AsciiDecodes(LengthLine(n));
    LineEndTrimmed(text);
    LengthFieldParsed(n);
  }

  lemma BlankHeaderParsed()
    ensures ParseHeader(Ascii("\r\n")) == Blank
  {
    AsciiDecodes("\r\n");
    assert "\r\n"[..1] == "\r" && "\r"[..0] == "";
  }

  lemma NextLineIs(line: seq<Byte>, rest: seq<Byte>, budget: nat)
    requires line != [] && NoLineFeed(line, |line| - 1) && line[|line| - 1] == LF && |line| <= budget
    ensures NextLine(line + rest, budget) == Line(line) && (line + rest)[|line|..] == rest
  {
    LineEndsAt(line + rest, |line|);
    assert (line + rest)[..|line|] == line;
  }

  lemma LengthLineShape(n: nat)
    requires n <= MAX_MESSAGE_BYTES
    ensures var line := Ascii(LengthLine(n)); 0 < |line| <= 25 && line[|line| - 1] == LF && NoLineFeed(line, |line| - 1)
  {
    assert Pow10(7) == 10_000_000;
    DecimalLength(n, 7);
  }

  /** The length line of a frame leaves the reader at the blank line, knowing the length. */
  lemma LengthRead(n: nat, used: nat, tail: seq<Byte>)
    requires n <= MAX_MESSAGE_BYTES && used + 25 <= MAX_HEADER_BYTES
    ensures var line := Ascii(LengthLine(n)); |line| <= 25 && Advance(line + tail, used, None) == More(tail, used + |line|, Some(n))
  {
    LengthLineShape(n);
    NextLineIs(Ascii(LengthLine(n)), tail, MAX_HEADER_BYTES - used);
    LengthHeaderParsed(n);
  }

  lemma BlankRead(tail: seq<Byte>, used: nat, length: nat)
    requires used + 2 <= MAX_HEADER_BYTES
    ensures Advance(Ascii("\r\n") + tail, used, Some(length)) ==
            if |tail| < length then Stop(Broken(BodyTruncated), []) else Stop(Message(tail[..length]), tail[length..])
  {
    NextLineIs(Ascii("\r\n"), tail, MAX_HEADER_BYTES - used);
    BlankHeaderParsed();
  }

  /** A written frame is read back as its body, with the rest of the stream untouched. */
  lemma FrameReceived(body: seq<Byte>, rest: seq<Byte>)
    requires |body| <= MAX_MESSAGE_BYTES
    ensures Receive(Frame(body) + rest, 0, None) == (Message(body), rest)
  {
    var first, second := Ascii(LengthLine(|body|)), Ascii("\r\n");
    assert Frame(body) + rest == first + (second + (body + rest));
    LengthRead(|body|, 0, second + (body + rest));
    BlankRead(body + rest, |first|, |body|);
    assert (body + rest)[..|body|] == body && (body + rest)[|body|..] == rest;
  }

  /** A second length, a length beyond the limit and a header block without one are errors. */
  lemma LengthErrors(n: nat, used: nat, known: nat, tail: seq<Byte>)
    requires n <= USIZE_MAX && used + |LengthLine(n)| <= MAX_HEADER_BYTES && used + 2 <= MAX_HEADER_BYTES
    ensures Receive(Ascii(LengthLine(n)) + tail, used, Some(known)) == (Broken(RepeatedLength), [])
    ensures n > MAX_MESSAGE_BYTES ==> Receive(Ascii(LengthLine(n)) + tail, used, None) == (Broken(MessageTooLong), [])
    ensures Receive(Ascii("\r\n") + tail, used, None) == (Broken(MissingLength), [])
  {
    var line := Ascii(LengthLine(n));
    NextLineIs(line, tail, MAX_HEADER_BYTES - used);
    LengthHeaderParsed(n);
    NextLineIs(Ascii("\r\n"), tail, MAX_HEADER_BYTES - used);
    BlankHeaderParsed();
  }

  // -------------------------------------------------------------------
  // Header fields other than the length
  // -------------------------------------------------------------------

  /** A field that is on one line and does not name Content-Length, in any case of letters. */
  ghost predicate OtherField(field: string) {
    && field != [] && '\n' !in field && field[|field| - 1] != '\r'
    && forall name, value | field == name + (":" + value) && ':' !in name :: !IsContentLength(name)
  }

  function FieldLine(field: string): seq<Byte> {
    EncodeUtf8(field + "\r\n")
  }

  lemma {:induction false} BeforeColon(s: string)
    ensures ':' !in s[..IndexOfColon(s)]
    ensures IndexOfColon(s) < |s| ==> s[IndexOfColon(s)] == ':'
  {
    if s == [] || s[0] == ':' {
    } else {
      BeforeColon(s[1..]);
      assert s[..IndexOfColon(s)] == [s[0]] + s[1..][..IndexOfColon(s[1..])];
    }
  }

  lemma OtherFieldParsed(field: string)
    requires OtherField(field)
    ensures ParseField(field) == Other
  {
    BeforeColon(field);
    var colon := IndexOfColon(field);
    if colon < |field| {
      assert field == field[..colon] + (":" + field[colon + 1..]);
    }
  }

  lemma OtherHeaderParsed(field: string)
    requires OtherField(field)
    ensures ParseHeader(FieldLine(field)) == Other
  {
    Utf8RoundTrip(field + "\r\n");
    LineEndTrimmed(field);
    OtherFieldParsed(field);
  }

  lemma FieldLineShape(field: string)
    requires OtherField(field)
    ensures var line := FieldLine(field); |line| > 0 && line[|line| - 1] == LF && NoLineFeed(line, |line| - 1)
  {
    Utf8Concat(field, "\r\n");
    assert EncodeUtf8("\r\n") == [13, 10] by {
      assert "\r\n"[1..] == "\n" && "\n"[1..] == "";
    }
    PlainByteAbsent(field, LF);
    assert forall i | 0 <= i < |EncodeUtf8(field)| :: EncodeUtf8(field)[i] in EncodeUtf8(field);
  }

  /** The bytes of a line that leave a reader where it was, but for the header bytes used. */
  ghost predicate PassedOver(line: seq<Byte>) {
    forall rest, used: nat, length | used + |line| <= MAX_HEADER_BYTES ::
      Advance(line + rest, used, length) == More(rest, used + |line|, length)
  }

  lemma FieldPassedOver(field: string)
    requires OtherField(field)
    ensures PassedOver(FieldLine(field))
  {
    var line := FieldLine(field);
    FieldLineShape(field);
    OtherHeaderParsed(field);
    forall rest, used: nat, length: Option<nat> | used + |line| <= MAX_HEADER_BYTES
      ensures Advance(line + rest, used, length) == More(rest, used + |line|, length)
    {
      NextLineIs(line, rest, MAX_HEADER_BYTES - used);
    }
  }

  /** Reading on from here yields a body and the rest of the stream. */
  ghost predicate Reads(s: seq<Byte>, used: nat, length: Option<nat>, body: seq<Byte>, rest: seq<Byte>) {
    used <= MAX_HEADER_BYTES && Receive(s, used, length) == (Message(body), rest)
  }

  lemma ReadsMore(s: seq<Byte>, used: nat, length: Option<nat>, after: seq<Byte>, next: nat, known: Option<nat>,
                  body: seq<Byte>, rest: seq<Byte>)
    requires used <= MAX_HEADER_BYTES && Advance(s, used, length) == More(after, next, known)
    requires Reads(after, next, known, body, rest)
    ensures Reads(s, used, length, body, rest)
  {
    ReceiveOn(s, used, length);
  }

  lemma ReadsThrough(line: seq<Byte>, s: seq<Byte>, used: nat, next: nat, length: Option<nat>, body: seq<Byte>, rest: seq<Byte>)
    requires next == used + |line| && PassedOver(line) && Reads(s, next, length, body, rest)
    ensures Reads(line + s, used, length, body, rest)
  {
    assert Advance(line + s, used, length) == More(s, used + |line|, length);
    ReadsMore(line + s, used, length, s, next, length, body, rest);
  }

  ghost predicate AllPassedOver(lines: seq<seq<Byte>>) {
    forall line | line in lines :: PassedOver(line)
  }

  /** What holds after the line at the header bytes it leads to holds before it. */
  ghost predicate Precedes(line: seq<Byte>, good: (seq<Byte>, nat) -> bool) {
    forall s, used: nat, next: nat | next == used + |line| && good(s, next) :: good(line + s, used)
  }

  lemma {:induction false} LinesPrecede(lines: seq<seq<Byte>>, block: seq<Byte>, s: seq<Byte>, used: nat, next: nat,
                                        good: (seq<Byte>, nat) -> bool)
    requires forall line | line in lines :: Precedes(line, good)
    requires block == Concat(lines) && next == used + |block| && good(s, next)
    ensures good(block + s, used)
  {
    if lines == [] {
      assert block + s == s;
    } else {
      var line, later, after := lines[0], Concat(lines[1..]), used + |lines[0]|;
      LinesPrecede(lines[1..], later, s, after, next, good);
      assert Precedes(line, good) && good(line + (later + s), used);
      Associative(line, later, s);
    }
  }

  /** A block of such lines takes the header from `used` bytes to `next` bytes and changes nothing else. */
  lemma LinesPassedOver(lines: seq<seq<Byte>>, s: seq<Byte>, used: nat, next: nat, length: Option<nat>,
                        body: seq<Byte>, rest: seq<Byte>)
    requires AllPassedOver(lines)
    requires next == used + |Concat(lines)| && Reads(s, next, length, body, rest)
    ensures Reads(Concat(lines) + s, used, length, body, rest)
  {
    var good := (t: seq<Byte>, u: nat) => Reads(t, u, length, body, rest);
    forall line | line in lines ensures Precedes(line, good) {
      forall t, u: nat, v: nat | v == u + |line| && good(t, v) ensures good(line + t, u) {
        ReadsThrough(line, t, u, v, length, body, rest);
      }
    }
    LinesPrecede(lines, Concat(lines), s, used, next, good);
  }

  lemma BodyReads(used: nat, body: seq<Byte>, rest: seq<Byte>)
    requires used + 2 <= MAX_HEADER_BYTES
    ensures Reads(Ascii("\r\n") + (body + rest), used, Some(|body|), body, rest)
  {
    BlankRead(body + rest, used, |body|);
    assert (body + rest)[..|body|] == body && (body + rest)[|body|..] == rest;
  }

  lemma LengthReads(n: nat, s: seq<Byte>, used: nat, next: nat, body: seq<Byte>, rest: seq<Byte>)
    requires n <= MAX_MESSAGE_BYTES && used + 25 <= MAX_HEADER_BYTES
    requires next == used + |LengthLine(n)| && Reads(s, next, Some(n), body, rest)
    ensures Reads(Ascii(LengthLine(n)) + s, used, None, body, rest)
  {
    LengthRead(n, used, s);
    ReadsMore(Ascii(LengthLine(n)) + s, used, None, s, next, Some(n), body, rest);
  }

  lemma LengthThenLines(lines: seq<seq<Byte>>, used: nat, body: seq<Byte>, rest: seq<Byte>)
    requires |body| <= MAX_MESSAGE_BYTES && used + 25 + |Concat(lines)| + 2 <= MAX_HEADER_BYTES
    requires AllPassedOver(lines)
    ensures Reads(Ascii(LengthLine(|body|)) + (Concat(lines) + (Ascii("\r\n") + (body + rest))), used, None, body, rest)
  {
    var end, next := Ascii("\r\n") + (body + rest), used + |LengthLine(|body|)|;
    var last := next + |Concat(lines)|;
    LengthLineShape(|body|);
    BodyReads(last, body, rest);
    LinesPassedOver(lines, end, next, last, Some(|body|), body, rest);
    LengthReads(|body|, Concat(lines) + end, used, next, body, rest);
  }

  function FieldLines(fields: seq<string>): (lines: seq<seq<Byte>>)
    ensures |lines| == |fields| && forall k | 0 <= k < |fields| :: lines[k] == FieldLine(fields[k])
  {
    seq(|fields|, k requires 0 <= k < |fields| => FieldLine(fields[k]))
  }

  lemma FieldsPassedOver(fields: seq<string>)
    requires forall field | field in fields :: OtherField(field)
    ensures AllPassedOver(FieldLines(fields))
  {
    forall k | 0 <= k < |fields| ensures PassedOver(FieldLines(fields)[k]) {
      assert fields[k] in fields;
      FieldPassedOver(fields[k]);
    }
  }

  /** The length may stand anywhere among other fields: the body read is the same. */
  lemma FrameWithFields(before: seq<string>, after: seq<string>, body: seq<Byte>, rest: seq<Byte>)
    requires |body| <= MAX_MESSAGE_BYTES
    requires (forall field | field in before :: OtherField(field)) && (forall field | field in after :: OtherField(field))
    requires |Concat(FieldLines(before))| + 25 + |Concat(FieldLines(after))| + 2 <= MAX_HEADER_BYTES
    ensures var later := Concat(FieldLines(after)) + (Ascii("\r\n") + (body + rest));
            Reads(Concat(FieldLines(before)) + (Ascii(LengthLine(|body|)) + later), 0, None, body, rest)
  {
    var later := Concat(FieldLines(after)) + (Ascii("\r\n") + (body + rest));
    FieldsPassedOver(before);
    FieldsPassedOver(after);
    var used := |Concat(FieldLines(before))|;
    LengthThenLines(FieldLines(after), used, body, rest);
    LinesPassedOver(FieldLines(before), Ascii(LengthLine(|body|)) + later, 0, used, None, body, rest);
  }

  lemma NoLineBreaks(p: seq<Byte>, used: nat, length: Option<nat>)
    requires NoLineFeed(p, |p|) && used <= MAX_HEADER_BYTES && (p == [] ==> used > 0)
    ensures Receive(p, used, length).0.Broken?
  {
    if p != [] {
      LineEndsAt(p, |p|);
    }
  }

  /** A frame cut off anywhere inside is an error, neither a message nor a clean end. */
  lemma PartialFrame(body: seq<Byte>, n: nat)
    requires |body| <= MAX_MESSAGE_BYTES && 0 < n < |Frame(body)|
    ensures Receive(Frame(body)[..n], 0, None).0.Broken?
  {
    var first, second := Ascii(LengthLine(|body|)), Ascii("\r\n");
    var p := Frame(body)[..n];
    assert Frame(body) == first + (second + body);
    LengthLineShape(|body|);
    if n < |first| {
      assert p == first[..n];
      NoLineBreaks(p, 0, None);
    } else {
      var q := (second + body)[..n - |first|];
      assert p == first + q;
      LengthRead(|body|, 0, q);
      if |q| < 2 {
        assert NoLineFeed(q, |q|);
        NoLineBreaks(q, |first|, Some(|body|));
      } else {
        var r := body[..|q| - 2];
        assert q == second + r;
        BlankRead(r, |first|, |body|);
      }
    }
  }

  lemma FrameThenRest(body: seq<Byte>, rest: seq<Byte>)
    requires |body| <= MAX_MESSAGE_BYTES
    ensures ReceiveAll(Frame(body) + rest) == After([body], ReceiveAll(rest))
  {
    FrameReceived(body, rest);
  }

  function Stream(bodies: seq<seq<Byte>>): seq<Byte> {
    if bodies == [] then [] else Frame(bodies[0]) + Stream(bodies[1..])
  }

  lemma AfterFirst(bodies: seq<seq<Byte>>)
    requires bodies != []
    ensures After([bodies[0]], Transcript(bodies[1..], true)) == Transcript(bodies, true)
  {
  }

  /** Reading what was written returns the bodies in order and then a clean end; by `ReadResponses`, for every chunking. */
  lemma {:induction false} FramesRoundTrip(bodies: seq<seq<Byte>>)
    requires forall k | 0 <= k < |bodies| :: |bodies[k]| <= MAX_MESSAGE_BYTES
    ensures ReceiveAll(Stream(bodies)) == Transcript(bodies, true)
  {
    if bodies == [] {
    } else {
      FramesRoundTrip(bodies[1..]);
      FrameThenRest(bodies[0], Stream(bodies[1..]));
      AfterFirst(bodies);
    }
  }

  /** The bytes of the first k frames. */
  function SentBytes(bodies: seq<seq<Byte>>, k: nat): nat
    requires k <= |bodies|
  {
    |Stream(bodies[..k])|
  }

  lemma SentNext(bodies: seq<seq<Byte>>, k: nat)
    requires 0 < k <= |bodies|
    ensures SentBytes(bodies, k) == |Frame(bodies[0])| + SentBytes(bodies[1..], k - 1)
  {
    assert bodies[..k][1..] == bodies[1..][..k - 1];
  }

  /** What reading a stream cut off after n bytes must yield when the first k frames arrived whole. */
  ghost predicate CutAt(bodies: seq<seq<Byte>>, n: nat, k: nat, read: Transcript) {
    && k <= |bodies| && SentBytes(bodies, k) <= n && (k < |bodies| ==> n < SentBytes(bodies, k + 1))
    && read == Transcript(bodies[..k], n == SentBytes(bodies, k))
  }

  ghost predicate ReadsAs(bodies: seq<seq<Byte>>, n: nat, read: Transcript) {
    n <= |Stream(bodies)| && ReceiveAll(Stream(bodies)[..n]) == read
  }

  /**
   A stream of frames cut off after any number of bytes yields exactly the bodies whose frames
   arrived whole, and ends cleanly if and only if it was cut between frames.
  */
  lemma {:induction false} CutStream(bodies: seq<seq<Byte>>, n: nat) returns (k: nat, read: Transcript)
    requires n <= |Stream(bodies)| && forall i | 0 <= i < |bodies| :: |bodies[i]| <= MAX_MESSAGE_BYTES
    ensures ReadsAs(bodies, n, read) && CutAt(bodies, n, k, read)
    decreases |bodies|
  {
    if bodies == [] {
      k, read := 0, Transcript([], true);
      NothingRead();
    } else if n < |Frame(bodies[0])| {
      k, read := 0, Transcript([], n == 0);
      SentNext(bodies, 1);
      CutInFirst(bodies, n);
    } else {
      var left: nat := n - |Frame(bodies[0])|;
      var j, later := CutStream(bodies[1..], left);
      k, read := j + 1, After([bodies[0]], later);
      ReadAfterFirst(bodies, n, left, later);
      CutLater(bodies, n, left, j, later);
    }
  }

  lemma NothingRead()
    ensures ReadsAs([], 0, Transcript([], true))
  {
  }

  lemma CutInFirst(bodies: seq<seq<Byte>>, n: nat)
    requires bodies != [] && |bodies[0]| <= MAX_MESSAGE_BYTES && n < |Frame(bodies[0])|
    ensures ReadsAs(bodies, n, Transcript([], n == 0))
  {
    FirstBytes(bodies[0], bodies[1..], n);
    CutInside(bodies[0], n);
  }

  lemma ReadAfterFirst(bodies: seq<seq<Byte>>, n: nat, left: nat, later: Transcript)
    requires bodies != [] && |bodies[0]| <= MAX_MESSAGE_BYTES && n == |Frame(bodies[0])| + left && ReadsAs(bodies[1..], left, later)
    ensures ReadsAs(bodies, n, After([bodies[0]], later))
  {
    LaterBytes(bodies, left);
    ReadsOn(Stream(bodies)[..n], bodies[0], Stream(bodies[1..])[..left], later);
  }

  lemma ReadsOn(s: seq<Byte>, body: seq<Byte>, tail: seq<Byte>, later: Transcript)
    requires |body| <= MAX_MESSAGE_BYTES && s == Frame(body) + tail && ReceiveAll(tail) == later
    ensures ReceiveAll(s) == After([body], later)
  {
    FrameThenRest(body, tail);
  }

  lemma FirstBytes(body: seq<Byte>, rest: seq<seq<Byte>>, n: nat)
    requires n <= |Frame(body)|
    ensures (Frame(body) + Stream(rest))[..n] == Frame(body)[..n]
  {
  }

  lemma LaterBytes(bodies: seq<seq<Byte>>, left: nat)
    requires bodies != [] && left <= |Stream(bodies[1..])|
    ensures var n := |Frame(bodies[0])| + left;
            n <= |Stream(bodies)| && Stream(bodies)[..n] == Frame(bodies[0]) + Stream(bodies[1..])[..left]
  {
  }

  lemma CutInside(body: seq<Byte>, n: nat)
    requires |body| <= MAX_MESSAGE_BYTES && n < |Frame(body)|
    ensures ReceiveAll(Frame(body)[..n]) == Transcript([], n == 0)
  {
    if n > 0 {
      PartialFrame(body, n);
    }
  }

  lemma CutLater(bodies: seq<seq<Byte>>, n: nat, left: nat, j: nat, read: Transcript)
    requires bodies != [] && n == |Frame(bodies[0])| + left && CutAt(bodies[1..], left, j, read)
    ensures CutAt(bodies, n, j + 1, After([bodies[0]], read))
  {
    SentNext(bodies, j + 1);
    if j + 1 < |bodies| {
      SentNext(bodies, j + 2);
    }
    assert bodies[..j + 1] == [bodies[0]] + bodies[1..][..j];
  }

  lemma StreamStep(wire: seq<Byte>, bodies: seq<seq<Byte>>, k: nat)
    requires k < |bodies|
    ensures wire + Stream(bodies[k..]) == wire + Frame(bodies[k]) + Stream(bodies[k + 1..])
  {
  }

  method WriteMessages(bodies: seq<seq<Byte>>) returns (wire: seq<Byte>)
    requires forall k | 0 <= k < |bodies| :: |bodies[k]| <= MAX_MESSAGE_BYTES
    ensures wire == Stream(bodies)
  {
    wire := [];
    for k := 0 to |bodies|
      invariant wire + Stream(bodies[k..]) == Stream(bodies)
    {
      var ok;
      StreamStep(wire, bodies, k);
      ok, wire := WriteMessage(wire, bodies[k]);
    }
    assert wire + [] == wire;
  }

  /** The writer thread and the reader thread together, over any chunking of the bytes between them. */
  method Exchange(bodies: seq<seq<Byte>>, chunks: seq<nat>) returns (t: Transcript)
    requires forall k | 0 <= k < |bodies| :: |bodies[k]| <= MAX_MESSAGE_BYTES
    ensures t == Transcript(bodies, true)
  {
    var wire := WriteMessages(bodies);
    FramesRoundTrip(bodies);
    var reader := new BufferedReader(wire, chunks);
    t := ReadResponses(reader);
  }
}
