/**
 The orders used by `ORDER BY` clauses and by tuple comparisons: a row is compared
 by a list of column values, lexicographically. NULL sorts before numbers and numbers
 before text, which is both SQLite's storage-class order and Rust's order on options.
 Text is compared code point by code point, as both sides compare UTF-8 bytes.
 */
module Ordering {
  import opened Options

  datatype Atom = Null | Num(n: int) | Txt(s: string)

  type Key = seq<Atom>

  function OptText(s: Option<string>): Atom {
    if s.None? then Null else Txt(s.value)
  }

  predicate TextLess(a: string, b: string) {
    b != [] && (a == [] || a[0] < b[0] || (a[0] == b[0] && TextLess(a[1..], b[1..])))
  }

  lemma {:induction false} TextTrichotomy(a: string, b: string)
    ensures TextLess(a, b) || a == b || TextLess(b, a)
    ensures !(TextLess(a, b) && TextLess(b, a))
    ensures !TextLess(a, a)
  {
    if a != [] {
      TextTrichotomy(a[1..], a[1..]);
    }
    if a != [] && b != [] {
      TextTrichotomy(a[1..], b[1..]);
      if a[0] == b[0] && a[1..] == b[1..] {
        assert a == [a[0]] + a[1..] == b;
      }
    }
  }

  lemma {:induction false} TextTransitive(a: string, b: string, c: string)
    requires TextLess(a, b) && TextLess(b, c)
    ensures TextLess(a, c)
  {
    if a == [] || !(a[0] == b[0] == c[0]) {
    } else {
      TextTransitive(a[1..], b[1..], c[1..]);
    }
  }

  predicate AtomLess(a: Atom, b: Atom) {
    match (a, b)
    case (Num(m), Num(n)) => m < n
    case (Txt(s), Txt(t)) => TextLess(s, t)
    case (Null, _) => !b.Null?
    case (Num(_), Txt(_)) => true
    case _ => false
  }

  predicate KeyLess(a: Key, b: Key) {
    b != [] && (a == [] || AtomLess(a[0], b[0]) || (a[0] == b[0] && KeyLess(a[1..], b[1..])))
  }

  /** Two texts agree up to position k, and there the first one ends or has the smaller character. */
  predicate TextDiffersAt(a: string, b: string, k: nat) {
    k <= |a| && k < |b| && a[..k] == b[..k] && (k == |a| || a[k] < b[k])
  }

  lemma {:induction false} TextFirstDifference(a: string, b: string)
    ensures TextLess(a, b) <==> exists k: nat :: TextDiffersAt(a, b, k)
  {
    if a == [] || b == [] || a[0] != b[0] {
      if TextLess(a, b) {
        assert TextDiffersAt(a, b, 0);
      }
      forall k: nat | 0 < k ensures !TextDiffersAt(a, b, k) {
        if k <= |a| && k <= |b| {
          assert a[..k][0] == a[0] && b[..k][0] == b[0];
        }
      }
    } else {
      TextFirstDifference(a[1..], b[1..]);
      if k: nat :| TextDiffersAt(a[1..], b[1..], k) {
        assert a[..k + 1] == [a[0]] + a[1..][..k] && b[..k + 1] == [b[0]] + b[1..][..k];
        assert TextDiffersAt(a, b, k + 1);
      }
      if k: nat :| TextDiffersAt(a, b, k) {
        assert a[1..][..k - 1] == a[..k][1..] && b[1..][..k - 1] == b[..k][1..];
        assert TextDiffersAt(a[1..], b[1..], k - 1);
      }
    }
  }

  predicate KeyDiffersAt(a: Key, b: Key, k: nat) {
    k <= |a| && k < |b| && a[..k] == b[..k] && (k == |a| || AtomLess(a[k], b[k]))
  }

  /** Rows are compared column by column, and the first difference decides. */
  lemma {:induction false} KeyFirstDifference(a: Key, b: Key)
    ensures KeyLess(a, b) <==> exists k: nat :: KeyDiffersAt(a, b, k)
  {
    if a == [] || b == [] || a[0] != b[0] {
      if KeyLess(a, b) {
        assert KeyDiffersAt(a, b, 0);
      }
      forall k: nat | 0 < k ensures !KeyDiffersAt(a, b, k) {
        if k <= |a| && k <= |b| {
          assert a[..k][0] == a[0] && b[..k][0] == b[0];
        }
      }
    } else {
      KeyFirstDifference(a[1..], b[1..]);
      AtomTrichotomy(a[0], b[0]);
      if k: nat :| KeyDiffersAt(a[1..], b[1..], k) {
        assert a[..k + 1] == [a[0]] + a[1..][..k] && b[..k + 1] == [b[0]] + b[1..][..k];
        assert KeyDiffersAt(a, b, k + 1);
      }
      if k: nat :| KeyDiffersAt(a, b, k) {
        assert a[1..][..k - 1] == a[..k][1..] && b[1..][..k - 1] == b[..k][1..];
        assert KeyDiffersAt(a[1..], b[1..], k - 1);
      }
    }
  }

  lemma AtomTrichotomy(a: Atom, b: Atom)
    ensures AtomLess(a, b) || a == b || AtomLess(b, a)
    ensures !(AtomLess(a, b) && AtomLess(b, a))
    ensures !AtomLess(a, a)
  {
    if a.Txt? {
      TextTrichotomy(a.s, a.s);
      if b.Txt? {
        TextTrichotomy(a.s, b.s);
      }
    }
  }

  lemma AtomTransitive(a: Atom, b: Atom, c: Atom)
    requires AtomLess(a, b) && AtomLess(b, c)
    ensures AtomLess(a, c)
  {
    if a.Txt? && b.Txt? && c.Txt? {
      TextTransitive(a.s, b.s, c.s);
    }
  }

  /** Keys are totally ordered: exactly one of less, equal and greater holds. */
  lemma {:induction false} KeyTrichotomy(a: Key, b: Key)
    ensures KeyLess(a, b) || a == b || KeyLess(b, a)
    ensures !(KeyLess(a, b) && KeyLess(b, a))
    ensures !KeyLess(a, a)
  {
    if a != [] {
      KeyTrichotomy(a[1..], a[1..]);
      AtomTrichotomy(a[0], a[0]);
    }
    if a != [] && b != [] {
      AtomTrichotomy(a[0], b[0]);
      KeyTrichotomy(a[1..], b[1..]);
      if a[0] == b[0] && a[1..] == b[1..] {
        assert a == [a[0]] + a[1..] == b;
      }
    }
  }

  lemma {:induction false} KeyTransitive(a: Key, b: Key, c: Key)
    requires KeyLess(a, b) && KeyLess(b, c)
    ensures KeyLess(a, c)
  {
    if a == [] {
    } else {
      if AtomLess(a[0], b[0]) && AtomLess(b[0], c[0]) {
        AtomTransitive(a[0], b[0], c[0]);
      } else if a[0] == b[0] == c[0] {
        KeyTransitive(a[1..], b[1..], c[1..]);
      }
    }
  }

  predicate KeyLeq(a: Key, b: Key) {
    !KeyLess(b, a)
  }

  lemma KeyLeqTransitive(a: Key, b: Key, c: Key)
    requires KeyLeq(a, b) && KeyLeq(b, c)
    ensures KeyLeq(a, c)
  {
    KeyTrichotomy(a, b);
    KeyTrichotomy(b, c);
    if KeyLess(c, a) {
      if a == b {
      } else {
        KeyTransitive(c, a, b);
      }
    }
  }

  /** Keys that differ in a common-length prefix are ordered by that prefix. */
  lemma {:induction false} KeyPrefix(p: Key, q: Key, x: Key, y: Key)
    requires |p| == |q| && p != q
    ensures KeyLess(p + x, q + y) <==> KeyLess(p, q)
  {
    if p == [] {
    } else {
      assert (p + x)[1..] == p[1..] + x && (q + y)[1..] == q[1..] + y;
      if p[0] == q[0] {
        assert p == [p[0]] + p[1..] && q == [q[0]] + q[1..];
        KeyPrefix(p[1..], q[1..], x, y);
        AtomTrichotomy(p[0], q[0]);
      }
    }
  }

  // -------------------------------------------------------------------
  // Stable sorting by a key
  // -------------------------------------------------------------------

  ghost predicate SortedBy<T>(key: T -> Key, rows: seq<T>) {
    forall i, j | 0 <= i < j < |rows| :: KeyLeq(key(rows[i]), key(rows[j]))
  }

  function Insert<T>(key: T -> Key, row: T, rows: seq<T>): (r: seq<T>)
    ensures multiset(r) == multiset{row} + multiset(rows)
  {
    if rows == [] || KeyLeq(key(row), key(rows[0])) then [row] + rows
    else
      assert rows == [rows[0]] + rows[1..];
      [rows[0]] + Insert(key, row, rows[1..])
  }

  /** A stable sort: a row is placed before the later rows that compare equal to it. */
  function Sort<T>(key: T -> Key, rows: seq<T>): (r: seq<T>)
    ensures multiset(r) == multiset(rows)
    ensures |r| == |rows|
  {
    if rows == [] then []
    else
      assert rows == [rows[0]] + rows[1..];
      var r := Insert(key, rows[0], Sort(key, rows[1..]));
      assert |multiset(r)| == |multiset(rows)|;
      r
  }

  lemma SortKeepsMembers<T(!new)>(key: T -> Key, rows: seq<T>)
    ensures forall row :: row in Sort(key, rows) <==> row in rows
  {
    forall row ensures row in Sort(key, rows) <==> row in rows {
      assert row in Sort(key, rows) <==> row in multiset(Sort(key, rows));
      assert row in rows <==> row in multiset(rows);
    }
  }

  lemma {:induction false} InsertSorted<T>(key: T -> Key, row: T, rows: seq<T>)
    requires SortedBy(key, rows)
    ensures SortedBy(key, Insert(key, row, rows))
  {
    if rows == [] {
    } else if KeyLeq(key(row), key(rows[0])) {
      forall j | 0 <= j < |rows| ensures KeyLeq(key(row), key(rows[j])) {
        if j > 0 {
          KeyLeqTransitive(key(row), key(rows[0]), key(rows[j]));
        }
      }
    } else {
      InsertSorted(key, row, rows[1..]);
      var tail := Insert(key, row, rows[1..]);
      KeyTrichotomy(key(row), key(rows[0]));
      forall x | x in tail ensures KeyLeq(key(rows[0]), key(x)) {
        assert x in multiset(tail);
        assert x == row || x in rows[1..];
      }
    }
  }

  lemma {:induction false} SortSorted<T>(key: T -> Key, rows: seq<T>)
    ensures SortedBy(key, Sort(key, rows))
  {
    if rows == [] {
    } else {
      SortSorted(key, rows[1..]);
      InsertSorted(key, rows[0], Sort(key, rows[1..]));
    }
  }

  /** Rows in key order, and rows with equal keys in the order of a second key. */
  ghost predicate SortedByThen<T>(key: T -> Key, tie: T -> Key, rows: seq<T>) {
    forall i, j | 0 <= i < j < |rows| ::
      KeyLess(key(rows[i]), key(rows[j])) || (key(rows[i]) == key(rows[j]) && KeyLeq(tie(rows[i]), tie(rows[j])))
  }

  lemma {:induction false} InsertStable<T>(key: T -> Key, tie: T -> Key, row: T, rows: seq<T>)
    requires SortedByThen(key, tie, rows)
    requires forall x | x in rows :: KeyLeq(tie(row), tie(x))
    ensures SortedByThen(key, tie, Insert(key, row, rows))
  {
    if rows == [] {
    } else if KeyLeq(key(row), key(rows[0])) {
      forall j | 0 <= j < |rows| ensures KeyLess(key(row), key(rows[j])) || key(row) == key(rows[j]) {
        KeyTrichotomy(key(row), key(rows[0]));
        KeyTrichotomy(key(row), key(rows[j]));
        if j > 0 {
          KeyTrichotomy(key(rows[0]), key(rows[j]));
          KeyLeqTransitive(key(row), key(rows[0]), key(rows[j]));
        }
      }
    } else {
      InsertStable(key, tie, row, rows[1..]);
      var tail := Insert(key, row, rows[1..]);
      forall x | x in tail
        ensures KeyLess(key(rows[0]), key(x)) || (key(rows[0]) == key(x) && KeyLeq(tie(rows[0]), tie(x)))
      {
        assert x in multiset(tail);
        assert x == row || x in rows[1..];
      }
    }
  }

  /** Sorting is stable: rows that come in the order of a second key keep it among equals. */
  lemma {:induction false} SortStable<T>(key: T -> Key, tie: T -> Key, rows: seq<T>)
    requires SortedBy(tie, rows)
    ensures SortedByThen(key, tie, Sort(key, rows))
  {
    if rows == [] {
    } else {
      SortStable(key, tie, rows[1..]);
      var rest := Sort(key, rows[1..]);
      forall x | x in rest ensures KeyLeq(tie(rows[0]), tie(x)) {
        assert x in multiset(rest);
        assert x in rows[1..];
      }
      InsertStable(key, tie, rows[0], rest);
    }
  }

  ghost predicate Distinguishes<T>(key: T -> Key, rows: seq<T>) {
    forall a, b | a in rows && b in rows && key(a) == key(b) :: a == b
  }

  lemma SortedHead<T>(key: T -> Key, a: seq<T>, b: seq<T>)
    requires SortedBy(key, a) && SortedBy(key, b)
    requires multiset(a) == multiset(b)
    requires Distinguishes(key, a)
    requires a != []
    ensures b != [] && a[0] == b[0]
  {
    assert a[0] in multiset(b);
    assert b[0] in multiset(a);
    assert KeyLeq(key(a[0]), key(b[0])) by {
      var i :| 0 <= i < |a| && a[i] == b[0];
      KeyTrichotomy(key(a[0]), key(a[0]));
    }
    assert KeyLeq(key(b[0]), key(a[0])) by {
      var j :| 0 <= j < |b| && b[j] == a[0];
      KeyTrichotomy(key(b[0]), key(b[0]));
    }
    KeyTrichotomy(key(a[0]), key(b[0]));
  }

  lemma TailCount<T>(a: seq<T>)
    requires a != []
    ensures multiset(a[1..]) == multiset(a) - multiset{a[0]}
    ensures a == [a[0]] + a[1..]
  {
    assert a == [a[0]] + a[1..];
  }

  /** Two sorted arrangements of the same rows are equal when the key tells rows apart. */
  lemma {:induction false} SortedUnique<T>(key: T -> Key, a: seq<T>, b: seq<T>)
    requires SortedBy(key, a) && SortedBy(key, b)
    requires multiset(a) == multiset(b)
    requires Distinguishes(key, a)
    ensures a == b
  {
    if a == [] {
      assert |multiset(b)| == 0;
    } else {
      SortedHead(key, a, b);
      TailCount(a);
      TailCount(b);
      SortedUnique(key, a[1..], b[1..]);
    }
  }

  // -------------------------------------------------------------------
  // Selections of rows
  // -------------------------------------------------------------------

  function Filter<T(!new)>(keep: T -> bool, rows: seq<T>): (r: seq<T>)
    ensures forall x :: x in r <==> x in rows && keep(x)
  {
    if rows == [] then []
    else (if keep(rows[0]) then [rows[0]] else []) + Filter(keep, rows[1..])
  }

  lemma {:induction false} FilterCount<T(!new)>(keep: T -> bool, rows: seq<T>, x: T)
    ensures multiset(Filter(keep, rows))[x] == if keep(x) then multiset(rows)[x] else 0
  {
    if rows == [] {
    } else {
      FilterCount(keep, rows[1..], x);
      assert rows == [rows[0]] + rows[1..];
    }
  }

  lemma {:induction false} FilterSorted<T(!new)>(key: T -> Key, keep: T -> bool, rows: seq<T>)
    requires SortedBy(key, rows)
    ensures SortedBy(key, Filter(keep, rows))
  {
    if rows == [] {
    } else {
      FilterSorted(key, keep, rows[1..]);
      forall x | x in Filter(keep, rows[1..]) ensures KeyLeq(key(rows[0]), key(x)) {
        assert x in rows[1..];
      }
    }
  }

  // -------------------------------------------------------------------
  // Listings: a set of rows in key order
  // -------------------------------------------------------------------

  ghost predicate Distinct<T>(rows: seq<T>) {
    forall x | x in rows :: multiset(rows)[x] == 1
  }

  ghost predicate NoRepeats<T>(rows: seq<T>) {
    forall i, j | 0 <= i < j < |rows| :: rows[i] != rows[j]
  }

  lemma NoRepeatsAcross<T>(a: seq<T>, b: seq<T>)
    requires NoRepeats(a + b)
    ensures forall x | x in a :: x !in b
  {
    forall i, j | 0 <= i < |a| && 0 <= j < |b| ensures a[i] != b[j] {
      assert (a + b)[i] == a[i] && (a + b)[|a| + j] == b[j];
    }
  }

  lemma {:induction false} NoRepeatsDistinct<T>(rows: seq<T>)
    requires NoRepeats(rows)
    ensures Distinct(rows)
  {
    if rows == [] {
    } else {
      NoRepeatsDistinct(rows[1..]);
      assert rows == [rows[0]] + rows[1..];
      assert rows[0] !in multiset(rows[1..]);
    }
  }

  lemma DistinctNoRepeats<T>(a: seq<T>, b: seq<T>)
    requires Distinct(a) && multiset(a) == multiset(b)
    ensures NoRepeats(b)
  {
    forall i, j | 0 <= i < j < |b| ensures b[i] != b[j] {
      var front, back := b[..j], b[j..];
      assert b == front + back && front[i] == b[i] && back[0] == b[j];
      assert multiset(b)[b[i]] == multiset(front)[b[i]] + multiset(back)[b[i]];
      assert b[i] in multiset(a) && b[i] in a;
      assert b[i] in front && b[j] in back;
    }
  }

  ghost predicate IsListing<T(!new)>(key: T -> Key, rows: seq<T>, content: set<T>) {
    SortedBy(key, rows) && Distinct(rows) && forall x :: x in rows <==> x in content
  }

  lemma ListingUnique<T(!new)>(key: T -> Key, a: seq<T>, b: seq<T>, content: set<T>)
    requires IsListing(key, a, content) && IsListing(key, b, content)
    requires Distinguishes(key, a)
    ensures a == b
  {
    forall x ensures multiset(a)[x] == multiset(b)[x] {
      if x !in content {
        assert x !in a && x !in b;
      }
    }
    assert multiset(a) == multiset(b);
    SortedUnique(key, a, b);
  }

  lemma SortIsListing<T(!new)>(key: T -> Key, rows: seq<T>, content: set<T>)
    requires Distinct(rows) && forall x :: x in rows <==> x in content
    ensures IsListing(key, Sort(key, rows), content)
  {
    var sorted := Sort(key, rows);
    SortSorted(key, rows);
    forall x ensures x in sorted <==> x in content {
      assert x in sorted <==> x in multiset(sorted);
      assert x in rows <==> x in multiset(rows);
    }
  }
}
