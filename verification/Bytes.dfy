/** Bytes and their text and number encodings: base 64 without padding, base 16, big-endian integers. */
module Bytes {
  import opened Options

  newtype Byte = b: int | 0 <= b < 256

  // -------------------------------------------------------------------
  // Base 64, RFC 4648 section 4, without the padding of section 3.2
  // -------------------------------------------------------------------

  /** Table 1 of the standard: A-Z, a-z, 0-9, plus and slash. */
  function Symbol(v: nat): char
    requires v < 64
  {
    if v < 26 then 'A' + v as char
    else if v < 52 then 'a' + (v - 26) as char
    else if v < 62 then '0' + (v - 52) as char
    else if v == 62 then '+' else '/'
  }

  function Sextet(c: char): (r: Option<nat>)
    ensures r.Some? ==> r.value < 64
  {
    if 'A' <= c <= 'Z' then Some(c as nat - 'A' as nat)
    else if 'a' <= c <= 'z' then Some(c as nat - 'a' as nat + 26)
    else if '0' <= c <= '9' then Some(c as nat - '0' as nat + 52)
    else if c == '+' then Some(62) else if c == '/' then Some(63) else None
  }

  function EncodeBase64(b: seq<Byte>): string {
    if b == [] then ""
    else
      var b0 := b[0] as nat;
      if |b| == 1 then [Symbol(b0 / 4), Symbol(b0 % 4 * 16)]
      else
        var b1 := b[1] as nat;
        if |b| == 2 then [Symbol(b0 / 4), Symbol(b0 % 4 * 16 + b1 / 16), Symbol(b1 % 16 * 4)]
        else
          var b2 := b[2] as nat;
          [Symbol(b0 / 4), Symbol(b0 % 4 * 16 + b1 / 16), Symbol(b1 % 16 * 4 + b2 / 64), Symbol(b2 % 64)] + EncodeBase64(b[3..])
  }

  /** Strict decoding: no padding, no foreign characters, no stray low bits in the last symbol. */
  function DecodeBase64(s: string): Option<seq<Byte>> {
    if s == [] then Some([])
    else if |s| == 1 || Sextet(s[0]).None? || Sextet(s[1]).None? then None
    else
      var v0, v1 := Sextet(s[0]).value, Sextet(s[1]).value;
      var first := (v0 * 4 + v1 / 16) as Byte;
      if |s| == 2 then (if v1 % 16 == 0 then Some([first]) else None)
      else if Sextet(s[2]).None? then None
      else
        var v2 := Sextet(s[2]).value;
        var second := (v1 % 16 * 16 + v2 / 4) as Byte;
        if |s| == 3 then (if v2 % 4 == 0 then Some([first, second]) else None)
        else if Sextet(s[3]).None? then None
        else
          var third := (v2 % 4 * 64 + Sextet(s[3]).value) as Byte;
          match DecodeBase64(s[4..])
          case None => None
          case Some(later) => Some([first, second, third] + later)
  }

  /** Three bytes and four sextets hold the same 24 bits. */
  lemma GroupOfBytes(b0: nat, b1: nat, b2: nat)
    requires b0 < 256 && b1 < 256 && b2 < 256
    ensures var v1, v2 := b0 % 4 * 16 + b1 / 16, b1 % 16 * 4 + b2 / 64;
            && v1 < 64 && v2 < 64
            && b0 / 4 * 4 + v1 / 16 == b0
            && v1 % 16 * 16 + v2 / 4 == b1
            && v2 % 4 * 64 + b2 % 64 == b2
  {
  }

  lemma GroupOfSextets(v0: nat, v1: nat, v2: nat, v3: nat)
    requires v0 < 64 && v1 < 64 && v2 < 64 && v3 < 64
    ensures var b0, b1, b2 := v0 * 4 + v1 / 16, v1 % 16 * 16 + v2 / 4, v2 % 4 * 64 + v3;
            && b0 / 4 == v0
            && b0 % 4 * 16 + b1 / 16 == v1
            && b1 % 16 * 4 + b2 / 64 == v2
            && b2 % 64 == v3
  {
  }

  lemma SymbolOf(v: nat)
    requires v < 64
    ensures Sextet(Symbol(v)) == Some(v)
  {
  }

  lemma SextetOf(c: char)
    requires Sextet(c).Some?
    ensures Symbol(Sextet(c).value) == c
  {
  }

  lemma FullGroup(v0: nat, v1: nat, v2: nat, v3: nat, later: string)
    requires v0 < 64 && v1 < 64 && v2 < 64 && v3 < 64 && DecodeBase64(later).Some?
    ensures DecodeBase64([Symbol(v0), Symbol(v1), Symbol(v2), Symbol(v3)] + later) ==
            Some([(v0 * 4 + v1 / 16) as Byte, (v1 % 16 * 16 + v2 / 4) as Byte, (v2 % 4 * 64 + v3) as Byte] + DecodeBase64(later).value)
  {
    var s := [Symbol(v0), Symbol(v1), Symbol(v2), Symbol(v3)] + later;
    SymbolOf(v0);
    SymbolOf(v1);
    SymbolOf(v2);
    SymbolOf(v3);
    assert s[4..] == later;
  }

  lemma TripleGroup(v0: nat, v1: nat, v2: nat)
    requires v0 < 64 && v1 < 64 && v2 < 64 && v2 % 4 == 0
    ensures DecodeBase64([Symbol(v0), Symbol(v1), Symbol(v2)]) ==
            Some([(v0 * 4 + v1 / 16) as Byte, (v1 % 16 * 16 + v2 / 4) as Byte])
  {
    SymbolOf(v0);
    SymbolOf(v1);
    SymbolOf(v2);
  }

  lemma PairRoundTrip(b: Byte)
    ensures DecodeBase64(EncodeBase64([b])) == Some([b])
  {
  }

  lemma TripleRoundTrip(b: Byte, c: Byte)
    ensures DecodeBase64(EncodeBase64([b, c])) == Some([b, c])
  {
    var b0, b1 := b as nat, c as nat;
    GroupOfBytes(b0, b1, 0);
    TripleEncoded(b, c);
    TripleGroup(b0 / 4, b0 % 4 * 16 + b1 / 16, b1 % 16 * 4);
  }

  lemma GroupRoundTrip(b: Byte, c: Byte, d: Byte, later: seq<Byte>)
    requires DecodeBase64(EncodeBase64(later)) == Some(later)
    ensures DecodeBase64(EncodeBase64([b, c, d] + later)) == Some([b, c, d] + later)
  {
    var b0, b1, b2 := b as nat, c as nat, d as nat;
    var v0, v1, v2, v3 := b0 / 4, b0 % 4 * 16 + b1 / 16, b1 % 16 * 4 + b2 / 64, b2 % 64;
    GroupOfBytes(b0, b1, b2);
    FullGroupEncoded(b, c, d, v0, v1, v2, v3, later);
    FullGroup(v0, v1, v2, v3, EncodeBase64(later));
    assert (v0 * 4 + v1 / 16) as Byte == b && (v1 % 16 * 16 + v2 / 4) as Byte == c && (v2 % 4 * 64 + v3) as Byte == d;
  }

  lemma {:induction false} Base64RoundTrip(b: seq<Byte>)
    ensures DecodeBase64(EncodeBase64(b)) == Some(b)
  {
    if |b| == 1 {
      assert b == [b[0]];
      PairRoundTrip(b[0]);
    } else if |b| == 2 {
      assert b == [b[0], b[1]];
      TripleRoundTrip(b[0], b[1]);
    } else if b != [] {
      assert b == [b[0], b[1], b[2]] + b[3..];
      Base64RoundTrip(b[3..]);
      GroupRoundTrip(b[0], b[1], b[2], b[3..]);
    }
  }

  lemma FullGroupEncoded(b0: Byte, b1: Byte, b2: Byte, v0: nat, v1: nat, v2: nat, v3: nat, later: seq<Byte>)
    requires v0 == b0 as nat / 4 && v1 == b0 as nat % 4 * 16 + b1 as nat / 16
    requires v2 == b1 as nat % 16 * 4 + b2 as nat / 64 && v3 == b2 as nat % 64
    ensures EncodeBase64([b0, b1, b2] + later) == [Symbol(v0), Symbol(v1), Symbol(v2), Symbol(v3)] + EncodeBase64(later)
  {
  }

  lemma TripleEncoded(b0: Byte, b1: Byte)
    ensures EncodeBase64([b0, b1]) ==
            [Symbol(b0 as nat / 4), Symbol(b0 as nat % 4 * 16 + b1 as nat / 16), Symbol(b1 as nat % 16 * 4)]
  {
  }

  lemma PairCanonical(v0: nat, v1: nat)
    requires v0 < 64 && v1 < 64 && v1 % 16 == 0
    ensures EncodeBase64([(v0 * 4 + v1 / 16) as Byte]) == [Symbol(v0), Symbol(v1)]
  {
  }

  lemma TripleCanonical(v0: nat, v1: nat, v2: nat)
    requires v0 < 64 && v1 < 64 && v2 < 64 && v2 % 4 == 0
    ensures EncodeBase64([(v0 * 4 + v1 / 16) as Byte, (v1 % 16 * 16 + v2 / 4) as Byte]) == [Symbol(v0), Symbol(v1), Symbol(v2)]
  {
  }

  lemma PairText(s: string)
    requires |s| == 2 && DecodeBase64(s).Some?
    ensures EncodeBase64(DecodeBase64(s).value) == s
  {
    SextetOf(s[0]);
    SextetOf(s[1]);
    PairCanonical(Sextet(s[0]).value, Sextet(s[1]).value);
    assert s == [s[0], s[1]];
  }

  lemma TripleText(s: string)
    requires |s| == 3 && DecodeBase64(s).Some?
    ensures EncodeBase64(DecodeBase64(s).value) == s
  {
    var v0, v1, v2 := Sextet(s[0]).value, Sextet(s[1]).value, Sextet(s[2]).value;
    assert DecodeBase64(s).value == [(v0 * 4 + v1 / 16) as Byte, (v1 % 16 * 16 + v2 / 4) as Byte];
    TripleCanonical(v0, v1, v2);
    SextetOf(s[0]);
    SextetOf(s[1]);
    SextetOf(s[2]);
    assert s == [s[0], s[1], s[2]];
  }

  lemma QuadCanonical(v0: nat, v1: nat, v2: nat, v3: nat, later: seq<Byte>)
    requires v0 < 64 && v1 < 64 && v2 < 64 && v3 < 64
    ensures EncodeBase64([(v0 * 4 + v1 / 16) as Byte, (v1 % 16 * 16 + v2 / 4) as Byte, (v2 % 4 * 64 + v3) as Byte] + later) ==
            [Symbol(v0), Symbol(v1), Symbol(v2), Symbol(v3)] + EncodeBase64(later)
  {
    var n0, n1, n2 := v0 * 4 + v1 / 16, v1 % 16 * 16 + v2 / 4, v2 % 4 * 64 + v3;
    GroupOfSextets(v0, v1, v2, v3);
    FullGroupEncoded(n0 as Byte, n1 as Byte, n2 as Byte, v0, v1, v2, v3, later);
  }

  lemma QuadText(s: string)
    requires |s| >= 4 && DecodeBase64(s).Some? && DecodeBase64(s[4..]).Some?
    requires EncodeBase64(DecodeBase64(s[4..]).value) == s[4..]
    ensures EncodeBase64(DecodeBase64(s).value) == s
  {
    var v0, v1, v2, v3 := Sextet(s[0]).value, Sextet(s[1]).value, Sextet(s[2]).value, Sextet(s[3]).value;
    assert s == [Symbol(v0), Symbol(v1), Symbol(v2), Symbol(v3)] + s[4..] by {
      SextetOf(s[0]);
      SextetOf(s[1]);
      SextetOf(s[2]);
      SextetOf(s[3]);
    }
    FullGroup(v0, v1, v2, v3, s[4..]);
    QuadCanonical(v0, v1, v2, v3, DecodeBase64(s[4..]).value);
  }

  /** Strictness makes the encoding canonical: a text that decodes is the one encoding of its bytes. */
  lemma {:induction false} Base64Canonical(s: string)
    requires DecodeBase64(s).Some?
    ensures EncodeBase64(DecodeBase64(s).value) == s
  {
    if |s| == 2 {
      PairText(s);
    } else if |s| == 3 {
      TripleText(s);
    } else if s != [] {
      Base64Canonical(s[4..]);
      QuadText(s);
    }
  }

  lemma {:induction false} Base64Length(b: seq<Byte>)
    ensures |EncodeBase64(b)| == (4 * |b| + 2) / 3
    ensures forall i | 0 <= i < |EncodeBase64(b)| :: Sextet(EncodeBase64(b)[i]).Some?
  {
    if |b| < 3 {
    } else {
      Base64Length(b[3..]);
    }
  }

  // -------------------------------------------------------------------
  // Base 16, RFC 4648 section 8
  // -------------------------------------------------------------------

  function HexDigit(v: nat): char
    requires v < 16
  {
    if v < 10 then '0' + v as char else 'a' + (v - 10) as char
  }

  function Nibble(c: char): (r: Option<nat>)
    ensures r.Some? ==> r.value < 16
  {
    if '0' <= c <= '9' then Some(c as nat - '0' as nat)
    else if 'a' <= c <= 'f' then Some(c as nat - 'a' as nat + 10)
    else if 'A' <= c <= 'F' then Some(c as nat - 'A' as nat + 10)
    else None
  }

  function EncodeHex(b: seq<Byte>): (s: string)
    ensures |s| == 2 * |b|
  {
    if b == [] then "" else [HexDigit(b[0] as nat / 16), HexDigit(b[0] as nat % 16)] + EncodeHex(b[1..])
  }

  function DecodeHex(s: string): (r: Option<seq<Byte>>)
    ensures r.Some? ==> |s| == 2 * |r.value|
  {
    if s == [] then Some([])
    else if |s| == 1 || Nibble(s[0]).None? || Nibble(s[1]).None? then None
    else
      match DecodeHex(s[2..])
      case None => None
      case Some(later) => Some([(Nibble(s[0]).value * 16 + Nibble(s[1]).value) as Byte] + later)
  }

  function LowerHex(c: char): char {
    if 'A' <= c <= 'F' then c + 32 as char else c
  }

  function Lowered(s: string): (r: string)
    ensures |r| == |s| && forall i | 0 <= i < |s| :: r[i] == LowerHex(s[i])
  {
    seq(|s|, i requires 0 <= i < |s| => LowerHex(s[i]))
  }

  lemma {:induction false} HexRoundTrip(b: seq<Byte>)
    ensures DecodeHex(EncodeHex(b)) == Some(b)
  {
    if b == [] {
    } else {
      HexRoundTrip(b[1..]);
      assert EncodeHex(b)[2..] == EncodeHex(b[1..]);
      assert b == [b[0]] + b[1..];
    }
  }

  lemma NibblesCanonical(c: char, d: char)
    requires Nibble(c).Some? && Nibble(d).Some?
    ensures var b := Nibble(c).value * 16 + Nibble(d).value;
            HexDigit(b / 16) == LowerHex(c) && HexDigit(b % 16) == LowerHex(d)
  {
  }

  /** Encoding what a hexadecimal text decodes to gives the text back in lower case. */
  lemma {:induction false} HexCanonical(s: string)
    requires DecodeHex(s).Some?
    ensures EncodeHex(DecodeHex(s).value) == Lowered(s)
  {
    if s == [] {
    } else {
      HexCanonical(s[2..]);
      var b := DecodeHex(s).value;
      assert b[1..] == DecodeHex(s[2..]).value;
      NibblesCanonical(s[0], s[1]);
      assert Lowered(s) == [LowerHex(s[0]), LowerHex(s[1])] + Lowered(s[2..]);
    }
  }

  // -------------------------------------------------------------------
  // Big-endian integers
  // -------------------------------------------------------------------

  function Limit(width: nat): (n: nat)
    ensures n > 0
  {
    if width == 0 then 1 else 256 * Limit(width - 1)
  }

  function ToBigEndian(n: nat, width: nat): (b: seq<Byte>)
    requires n < Limit(width)
    ensures |b| == width
  {
    if width == 0 then [] else ToBigEndian(n / 256, width - 1) + [(n % 256) as Byte]
  }

  function FromBigEndian(b: seq<Byte>): (n: nat)
    ensures n < Limit(|b|)
  {
    if b == [] then 0 else 256 * FromBigEndian(b[..|b| - 1]) + b[|b| - 1] as nat
  }

  lemma {:induction false} BigEndianRoundTrip(n: nat, width: nat)
    requires n < Limit(width)
    ensures FromBigEndian(ToBigEndian(n, width)) == n
  {
    if width == 0 {
    } else {
      BigEndianRoundTrip(n / 256, width - 1);
      assert ToBigEndian(n, width)[..width - 1] == ToBigEndian(n / 256, width - 1);
    }
  }

  lemma LastByte(high: nat, low: Byte)
    ensures (256 * high + low as nat) / 256 == high && ((256 * high + low as nat) % 256) as Byte == low
  {
  }

  lemma {:induction false} BigEndianCanonical(b: seq<Byte>)
    ensures ToBigEndian(FromBigEndian(b), |b|) == b
  {
    if b == [] {
    } else {
      var front, last := b[..|b| - 1], b[|b| - 1];
      BigEndianCanonical(front);
      LastByte(FromBigEndian(front), last);
      assert b == front + [last];
    }
  }
}
