/**
 The two encodings of Unicode text: UTF-8, in which offsets and budgets are counted, and UTF-16,
 in which the protocol counts columns. Decoding gives the text back, so the lengths that
 SourceText adds up per character are those of the encoded text.
*/
module Unicode {
  import opened Options
  import opened Bytes
  import opened Sequences
  import opened SourceText

  function Cons(c: char, rest: Option<string>): Option<string> {
    if rest.None? then None else Some([c] + rest.value)
  }

  // -------------------------------------------------------------------
  // UTF-8, RFC 3629
  // -------------------------------------------------------------------

  predicate Continues(b: Byte) { 0x80 <= b < 0xC0 }

  /** No overlong forms, no surrogates, nothing beyond U+10FFFF. */
  function DecodeUtf8(s: seq<Byte>): Option<string> {
    if s == [] then Some("")
    else if s[0] < 0x80 then Cons(s[0] as char, DecodeUtf8(s[1..]))
    else if 0xC2 <= s[0] < 0xE0 && |s| > 1 && Continues(s[1]) then
      Cons(((s[0] as int - 0xC0) * 0x40 + (s[1] as int - 0x80)) as char, DecodeUtf8(s[2..]))
    else if 0xE0 <= s[0] < 0xF0 && |s| > 2 && Continues(s[1]) && Continues(s[2])
            && (s[0] == 0xE0 ==> s[1] >= 0xA0) && (s[0] == 0xED ==> s[1] < 0xA0) then
      Cons(((s[0] as int - 0xE0) * 0x1000 + (s[1] as int - 0x80) * 0x40 + (s[2] as int - 0x80)) as char, DecodeUtf8(s[3..]))
    else if 0xF0 <= s[0] < 0xF5 && |s| > 3 && Continues(s[1]) && Continues(s[2]) && Continues(s[3])
            && (s[0] == 0xF0 ==> s[1] >= 0x90) && (s[0] == 0xF4 ==> s[1] < 0x90) then
      Cons(((s[0] as int - 0xF0) * 0x4_0000 + (s[1] as int - 0x80) * 0x1000
            + (s[2] as int - 0x80) * 0x40 + (s[3] as int - 0x80)) as char,
           DecodeUtf8(s[4..]))
    else None
  }

  function Utf8Char(c: char): seq<Byte> {
    var v := c as int;
    if v < 0x80 then [v as Byte]
    else if v < 0x800 then [(0xC0 + v / 0x40) as Byte, (0x80 + v % 0x40) as Byte]
    else if v < 0x1_0000 then
      [(0xE0 + v / 0x1000) as Byte, (0x80 + v / 0x40 % 0x40) as Byte, (0x80 + v % 0x40) as Byte]
    else
      [(0xF0 + v / 0x4_0000) as Byte, (0x80 + v / 0x1000 % 0x40) as Byte,
       (0x80 + v / 0x40 % 0x40) as Byte, (0x80 + v % 0x40) as Byte]
  }

  function EncodeUtf8(s: string): seq<Byte> {
    if s == [] then [] else Utf8Char(s[0]) + EncodeUtf8(s[1..])
  }

  lemma DivideTwice(v: nat)
    ensures v / 0x1000 == v / 0x40 / 0x40
  {
  }

  lemma SplitDigits(v: nat)
    ensures v == v / 0x1000 * 0x1000 + v / 0x40 % 0x40 * 0x40 + v % 0x40
    ensures v == v / 0x4_0000 * 0x4_0000 + v / 0x1000 % 0x40 * 0x1000 + v / 0x40 % 0x40 * 0x40 + v % 0x40
  {
    DivideTwice(v);
    DivideTwice(v / 0x40);
    var high := v / 0x1000;
    assert v / 0x40 == high * 0x40 + v / 0x40 % 0x40;
    assert v / 0x4_0000 == high / 0x40;
    assert high == high / 0x40 * 0x40 + high % 0x40;
  }

  lemma JoinDigits(a: nat, b: nat, c: nat, d: nat)
    requires b < 0x40 && c < 0x40 && d < 0x40
    ensures var v := a * 0x4_0000 + b * 0x1000 + c * 0x40 + d;
            v / 0x4_0000 == a && v / 0x1000 % 0x40 == b && v / 0x40 % 0x40 == c && v % 0x40 == d
  {
    var high := a * 0x40 + b;
    var v := (high * 0x40 + c) * 0x40 + d;
    assert v / 0x40 == high * 0x40 + c;
    DivideTwice(v);
    assert v / 0x1000 == high;
    assert v / 0x4_0000 == high / 0x40;
  }

  /** A character in one or two bytes. */
  lemma ShortCharDecodes(c: char, rest: seq<Byte>)
    requires c as int < 0x800
    ensures DecodeUtf8(Utf8Char(c) + rest) == Cons(c, DecodeUtf8(rest))
  {
    var s := Utf8Char(c) + rest;
    assert s[|Utf8Char(c)|..] == rest;
  }

  lemma MiddleCharDecodes(c: char, rest: seq<Byte>)
    requires 0x800 <= c as int < 0x1_0000
    ensures DecodeUtf8(Utf8Char(c) + rest) == Cons(c, DecodeUtf8(rest))
  {
    var s := Utf8Char(c) + rest;
    assert s[3..] == rest;
    SplitDigits(c as int);
  }

  lemma LongCharDecodes(c: char, rest: seq<Byte>)
    requires 0x1_0000 <= c as int
    ensures DecodeUtf8(Utf8Char(c) + rest) == Cons(c, DecodeUtf8(rest))
  {
    var s := Utf8Char(c) + rest;
    assert s[4..] == rest;
    SplitDigits(c as int);
  }

  lemma Utf8CharDecodes(c: char, rest: seq<Byte>)
    ensures DecodeUtf8(Utf8Char(c) + rest) == Cons(c, DecodeUtf8(rest))
  {
    if c as int < 0x800 {
      ShortCharDecodes(c, rest);
    } else if c as int < 0x1_0000 {
      MiddleCharDecodes(c, rest);
    } else {
      LongCharDecodes(c, rest);
    }
  }

  lemma {:induction false} Utf8RoundTrip(s: string)
    ensures DecodeUtf8(EncodeUtf8(s)) == Some(s)
  {
    if s == [] {
    } else {
      Utf8CharDecodes(s[0], EncodeUtf8(s[1..]));
      Utf8RoundTrip(s[1..]);
      assert s == [s[0]] + s[1..];
    }
  }

  /** A byte below 0x80 stands for itself only, so a text without a character has no such byte. */
  lemma {:induction false} PlainByteAbsent(s: string, b: Byte)
    requires b < 0x80 && (b as char) !in s
    ensures b !in EncodeUtf8(s)
  {
    if s == [] {
    } else {
      PlainByteAbsent(s[1..], b);
      assert b !in Utf8Char(s[0]);
    }
  }

  lemma {:induction false} Utf8Concat(a: string, b: string)
    ensures EncodeUtf8(a + b) == EncodeUtf8(a) + EncodeUtf8(b)
  {
    if a == [] {
      assert a + b == b;
    } else {
      Utf8Concat(a[1..], b);
      assert (a + b)[1..] == a[1..] + b;
      Associative(Utf8Char(a[0]), EncodeUtf8(a[1..]), EncodeUtf8(b));
    }
  }

  /** How many bytes the first character of decodable bytes takes. */
  function LeadLength(b: Byte): nat {
    if b < 0x80 then 1 else if b < 0xE0 then 2 else if b < 0xF0 then 3 else 4
  }

  /** The first n bytes are the encoding of the first character of the text. */
  predicate LeadsWith(b: seq<Byte>, n: nat) {
    n <= |b| && DecodeUtf8(b).Some? && DecodeUtf8(b).value != []
    && DecodeUtf8(b[n..]) == Some(DecodeUtf8(b).value[1..]) && Utf8Char(DecodeUtf8(b).value[0]) == b[..n]
  }

  lemma TwoBytes(a: Byte, b: Byte)
    requires 0xC2 <= a < 0xE0 && Continues(b)
    ensures Utf8Char(((a as int - 0xC0) * 0x40 + (b as int - 0x80)) as char) == [a, b]
  {
    JoinDigits(0, 0, a as int - 0xC0, b as int - 0x80);
  }

  lemma MiddleBytes(a: Byte, b: Byte, c: Byte)
    requires 0xE0 <= a < 0xF0 && Continues(b) && Continues(c) && (a == 0xE0 ==> b >= 0xA0) && (a == 0xED ==> b < 0xA0)
    ensures Utf8Char(((a as int - 0xE0) * 0x1000 + (b as int - 0x80) * 0x40 + (c as int - 0x80)) as char) == [a, b, c]
  {
    JoinDigits(0, a as int - 0xE0, b as int - 0x80, c as int - 0x80);
  }

  lemma LongBytes(a: Byte, b: Byte, c: Byte, d: Byte)
    requires 0xF0 <= a < 0xF5 && Continues(b) && Continues(c) && Continues(d)
    requires (a == 0xF0 ==> b >= 0x90) && (a == 0xF4 ==> b < 0x90)
    ensures Utf8Char(((a as int - 0xF0) * 0x4_0000 + (b as int - 0x80) * 0x1000
                      + (c as int - 0x80) * 0x40 + (d as int - 0x80)) as char) == [a, b, c, d]
  {
    JoinDigits(a as int - 0xF0, b as int - 0x80, c as int - 0x80, d as int - 0x80);
  }

  lemma ShortLead(b: seq<Byte>)
    requires b != [] && DecodeUtf8(b).Some? && b[0] < 0xE0
    ensures LeadsWith(b, LeadLength(b[0]))
  {
    if b[0] < 0x80 {
      assert b[..1] == [b[0]];
    } else {
      TwoBytes(b[0], b[1]);
      assert b[..2] == [b[0], b[1]];
    }
  }

  lemma MiddleLead(b: seq<Byte>)
    requires b != [] && DecodeUtf8(b).Some? && 0xE0 <= b[0] < 0xF0
    ensures LeadsWith(b, 3)
  {
    MiddleBytes(b[0], b[1], b[2]);
    assert b[..3] == [b[0], b[1], b[2]];
  }

  lemma LongLead(b: seq<Byte>)
    requires b != [] && DecodeUtf8(b).Some? && 0xF0 <= b[0]
    ensures LeadsWith(b, 4)
  {
    LongBytes(b[0], b[1], b[2], b[3]);
    assert b[..4] == [b[0], b[1], b[2], b[3]];
  }

  lemma FirstCharEncodes(b: seq<Byte>)
    requires b != [] && DecodeUtf8(b).Some?
    ensures LeadsWith(b, LeadLength(b[0]))
  {
    if b[0] < 0xE0 {
      ShortLead(b);
    } else if b[0] < 0xF0 {
      MiddleLead(b);
    } else {
      LongLead(b);
    }
  }

  /** Only the encoding of a text decodes to it. */
  lemma {:induction false} Utf8Canonical(b: seq<Byte>, s: string)
    ensures DecodeUtf8(b) == Some(s) <==> b == EncodeUtf8(s)
    decreases |b|
  {
    Utf8RoundTrip(s);
    if b != [] && DecodeUtf8(b) == Some(s) {
      FirstCharEncodes(b);
      var n := LeadLength(b[0]);
      Utf8Canonical(b[n..], s[1..]);
      assert b == b[..n] + b[n..];
    }
  }

  /** Byte lengths are those of the encoded text, and of any bytes that decode to it. */
  lemma {:induction false} BytesCounted(s: string)
    ensures ByteLen(s) == |EncodeUtf8(s)|
  {
    if s == [] {
    } else {
      BytesCounted(s[1..]);
    }
  }

  lemma DecodedLength(b: seq<Byte>, s: string)
    requires DecodeUtf8(b) == Some(s)
    ensures ByteLen(s) == |b|
  {
    Utf8Canonical(b, s);
    BytesCounted(s);
  }

  // -------------------------------------------------------------------
  // UTF-16, RFC 2781
  // -------------------------------------------------------------------

  newtype Unit = u: int | 0 <= u < 0x1_0000

  function Utf16Char(c: char): seq<Unit> {
    var v := c as int;
    if v < 0x1_0000 then [v as Unit]
    else [(0xD800 + (v - 0x1_0000) / 0x400) as Unit, (0xDC00 + (v - 0x1_0000) % 0x400) as Unit]
  }

  function EncodeUtf16(s: string): seq<Unit> {
    if s == [] then [] else Utf16Char(s[0]) + EncodeUtf16(s[1..])
  }

  /** A unit outside the surrogates is a character; inside, a high and a low one make a pair. */
  function DecodeUtf16(s: seq<Unit>): Option<string> {
    if s == [] then Some("")
    else if s[0] < 0xD800 || s[0] >= 0xE000 then Cons(s[0] as char, DecodeUtf16(s[1..]))
    else if s[0] < 0xDC00 && |s| > 1 && 0xDC00 <= s[1] < 0xE000 then
      Cons((0x1_0000 + (s[0] as int - 0xD800) * 0x400 + (s[1] as int - 0xDC00)) as char, DecodeUtf16(s[2..]))
    else None
  }

  lemma Utf16CharDecodes(c: char, rest: seq<Unit>)
    ensures DecodeUtf16(Utf16Char(c) + rest) == Cons(c, DecodeUtf16(rest))
  {
    var s := Utf16Char(c) + rest;
    assert s[|Utf16Char(c)|..] == rest;
  }

  lemma {:induction false} Utf16RoundTrip(s: string)
    ensures DecodeUtf16(EncodeUtf16(s)) == Some(s)
  {
    if s == [] {
    } else {
      Utf16CharDecodes(s[0], EncodeUtf16(s[1..]));
      Utf16RoundTrip(s[1..]);
      assert s == [s[0]] + s[1..];
    }
  }

  lemma {:induction false} UnitsCounted(s: string)
    ensures Units(s) == |EncodeUtf16(s)|
  {
    if s == [] {
    } else {
      UnitsCounted(s[1..]);
    }
  }
}
