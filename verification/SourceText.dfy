/** Source text as Unicode scalar values, measured in UTF-8 bytes and UTF-16 code units. */
module SourceText {
  import opened Options

  function Utf8Len(c: char): (n: nat)
    ensures 1 <= n <= 4
  {
    if c < 0x80 as char then 1 else if c < 0x800 as char then 2 else if c as int < 0x10000 then 3 else 4
  }

  function Utf16Len(c: char): (n: nat)
    ensures 1 <= n <= 2
  {
    if c as int < 0x10000 then 1 else 2
  }

  function ByteLen(s: seq<char>): (n: nat)
    ensures |s| <= n
  {
    if s == [] then 0 else Utf8Len(s[0]) + ByteLen(s[1..])
  }

  function Units(s: seq<char>): (n: nat)
    ensures |s| <= n
  {
    if s == [] then 0 else Utf16Len(s[0]) + Units(s[1..])
  }

  lemma {:induction false} ByteLenConcat(a: seq<char>, b: seq<char>)
    ensures ByteLen(a + b) == ByteLen(a) + ByteLen(b)
  {
    if a == [] {
      assert a + b == b;
    } else {
      ByteLenConcat(a[1..], b);
      assert (a + b)[1..] == a[1..] + b;
    }
  }

  lemma {:induction false} UnitsConcat(a: seq<char>, b: seq<char>)
    ensures Units(a + b) == Units(a) + Units(b)
  {
    if a == [] {
      assert a + b == b;
    } else {
      UnitsConcat(a[1..], b);
      assert (a + b)[1..] == a[1..] + b;
    }
  }

  /** `str::get(..offset)`: how many characters end exactly at a byte offset, if it is a character boundary. */
  function CharsBefore(s: seq<char>, offset: nat): (r: Option<nat>)
    ensures r.Some? ==> r.value <= |s| && ByteLen(s[..r.value]) == offset
  {
    if offset == 0 then Some(0)
    else if s == [] || Utf8Len(s[0]) > offset then None
    else
      match CharsBefore(s[1..], offset - Utf8Len(s[0]))
      case None => None
      case Some(k) =>
        assert s[..k + 1][1..] == s[1..][..k];
        Some(k + 1)
  }

  /** Every character boundary is found, so `CharsBefore` inverts the byte length of a prefix. */
  lemma {:induction false} BoundaryFound(s: seq<char>, k: nat)
    requires k <= |s|
    ensures CharsBefore(s, ByteLen(s[..k])) == Some(k)
  {
    if k == 0 {
    } else {
      BoundaryFound(s[1..], k - 1);
      assert s[..k][1..] == s[1..][..k - 1];
    }
  }

  /** `floor_char_boundary`: the longest prefix of at most n bytes. */
  function FloorBoundary(s: seq<char>, n: nat): (k: nat)
    ensures k <= |s| && ByteLen(s[..k]) <= n
    ensures k < |s| ==> n < ByteLen(s[..k + 1])
  {
    if s == [] || Utf8Len(s[0]) > n then 0
    else
      var k := FloorBoundary(s[1..], n - Utf8Len(s[0]));
      assert s[..k + 1][1..] == s[1..][..k];
      assert k + 1 < |s| ==> s[..k + 2][1..] == s[1..][..k + 1];
      k + 1
  }

  /** The longest beginning of a text within a budget, cut at a character boundary. */
  predicate Longest(s: seq<char>, maxBytes: nat, t: seq<char>) {
    t <= s && ByteLen(t) <= maxBytes && (|t| < |s| ==> maxBytes < ByteLen(s[..|t| + 1]))
  }

  lemma {:induction false} FourBytesEach(s: seq<char>)
    ensures ByteLen(s) <= 4 * |s|
  {
    if s == [] {
    } else {
      FourBytesEach(s[1..]);
    }
  }

  lemma PrefixNotLonger(s: seq<char>, k: nat)
    requires k <= |s|
    ensures ByteLen(s[..k]) <= ByteLen(s)
  {
    assert s == s[..k] + s[k..];
    ByteLenConcat(s[..k], s[k..]);
  }

  /** A text within the budget is kept whole. */
  lemma ShortTextKept(s: seq<char>, maxBytes: nat, t: seq<char>)
    requires ByteLen(s) <= maxBytes
    ensures Longest(s, maxBytes, t) <==> t == s
  {
    if Longest(s, maxBytes, t) && |t| < |s| {
      PrefixNotLonger(s, |t| + 1);
      assert false;
    }
    if Longest(s, maxBytes, t) {
      assert s[..|t|] == t;
    }
  }

  lemma LongestNotLonger(s: seq<char>, maxBytes: nat, t: seq<char>, u: seq<char>)
    requires Longest(s, maxBytes, t) && Longest(s, maxBytes, u)
    ensures |u| <= |t|
  {
    if |t| < |u| {
      assert u[..|t| + 1] == s[..|t| + 1];
      PrefixNotLonger(u, |t| + 1);
    }
  }

  lemma LongestUnique(s: seq<char>, maxBytes: nat, t: seq<char>, u: seq<char>)
    requires Longest(s, maxBytes, t) && Longest(s, maxBytes, u)
    ensures t == u
  {
    LongestNotLonger(s, maxBytes, t, u);
    LongestNotLonger(s, maxBytes, u, t);
    assert t == s[..|t|] == u;
  }
}
