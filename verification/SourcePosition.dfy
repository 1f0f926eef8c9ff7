/**
 Two algorithms for LSP source positions: the conversion of a byte offset to a line and a
 UTF-16 column, and the flat index of every legal position used to check a provider's answers.
 LSP 3.17, "Text Documents", ends a line at LF, CR LF or CR; "Position" counts UTF-16 units.
 */
module SourcePosition {
  import opened Options
  import opened SourceText
  import opened Unicode

  const U32_MAX := 0xFFFF_FFFF
  const CR := '\r'
  const LF := '\n'

  datatype Position = Position(line: nat, column: nat)

  // -------------------------------------------------------------------
  // From a byte offset to a position
  // -------------------------------------------------------------------

  datatype Cursor = Cursor(line: nat, column: nat, afterCr: bool) {
    function Here(): Position { Position(line, column) }
  }

  function Advance(p: Cursor, c: char): Cursor {
    if c == CR then Cursor(p.line + 1, 0, true)
    else if c == LF then Cursor(if p.afterCr then p.line else p.line + 1, 0, false)
    else Cursor(p.line, p.column + Utf16Len(c), false)
  }

  function Walk(p: Cursor, s: seq<char>): Cursor
    decreases |s|
  {
    if s == [] then p else Walk(Advance(p, s[0]), s[1..])
  }

  const ORIGIN := Cursor(0, 0, false)

  /** The position of the k-th character boundary. */
  function PositionAt(source: seq<char>, k: nat): Position
    requires k <= |source|
  {
    Walk(ORIGIN, source[..k]).Here()
  }

  lemma {:induction false} WalkConcat(p: Cursor, a: seq<char>, b: seq<char>)
    ensures Walk(p, a + b) == Walk(Walk(p, a), b)
    decreases |a|
  {
    if a == [] {
      assert a + b == b;
    } else {
      WalkConcat(Advance(p, a[0]), a[1..], b);
      assert (a + b)[1..] == a[1..] + b;
    }
  }

  ghost predicate FitsU32(source: seq<char>, k: nat)
    requires k <= |source|
  {
    forall j | 0 <= j <= k :: PositionAt(source, j).line <= U32_MAX && PositionAt(source, j).column <= U32_MAX
  }

  /** None off a character boundary or when a count leaves 32 bits; otherwise the position of that boundary. */
  ghost function Converted(source: seq<char>, byteOffset: nat): Option<Position> {
    match CharsBefore(source, byteOffset)
    case None => None
    case Some(k) => if FitsU32(source, k) then Some(PositionAt(source, k)) else None
  }

  method LspPositionAtByte(source: seq<char>, byteOffset: nat) returns (r: Option<Position>)
    ensures r == Converted(source, byteOffset)
  {
    var count := CharsBefore(source, byteOffset);
    if count.None? { return None; }
    var prefix := source[..count.value];
    var line: nat, character: nat, previousCr := 0, 0, false;
    for k := 0 to |prefix|
      invariant Walk(ORIGIN, source[..k]) == Cursor(line, character, previousCr)
      invariant FitsU32(source, k)
    {
      var value := prefix[k];
      WalkConcat(ORIGIN, source[..k], [value]);
      assert source[..k + 1] == source[..k] + [value];
      assert PositionAt(source, k) == Position(line, character);
      assert PositionAt(source, k + 1) == Advance(Cursor(line, character, previousCr), value).Here();
      if value == CR {
        if line + 1 > U32_MAX { return None; }
        line := line + 1;
        character := 0;
      } else if value == LF {
        if !previousCr {
          if line + 1 > U32_MAX { return None; }
          line := line + 1;
        }
        character := 0;
      } else {
        if character + Utf16Len(value) > U32_MAX { return None; }
        character := character + Utf16Len(value);
      }
      previousCr := value == CR;
    }
    r := Some(Position(line, character));
  }

  // -------------------------------------------------------------------
  // The flat index of legal positions
  // -------------------------------------------------------------------

  datatype Snapshot = Snapshot(lineStarts: seq<nat>, boundaries: seq<nat>)

  /** The columns after each character of a line, in 32-bit arithmetic. */
  function Columns(line: seq<char>, column: nat): (r: seq<nat>)
    ensures |r| == |line|
  {
    if line == [] then []
    else
      var next := (column + Utf16Len(line[0])) % (U32_MAX + 1);
      [next] + Columns(line[1..], next)
  }

  function AddedLine(s: Snapshot, line: seq<char>): Snapshot {
    Snapshot(s.lineStarts + [|s.boundaries|], s.boundaries + [0] + Columns(line, 0))
  }

  function IndexOf(lines: seq<seq<char>>): Snapshot {
    if lines == [] then Snapshot([], []) else AddedLine(IndexOf(lines[..|lines| - 1]), lines[|lines| - 1])
  }

  /** The lines of a text, with the characters already read of the current line in front. */
  function Split(line: seq<char>, rest: seq<char>): (r: seq<seq<char>>)
    ensures r != [] && line <= r[0]
    decreases |rest|
  {
    if rest == [] then [line]
    else if rest[0] == CR && |rest| > 1 && rest[1] == LF then [line] + Split([], rest[2..])
    else if rest[0] == CR || rest[0] == LF then [line] + Split([], rest[1..])
    else Split(line + [rest[0]], rest[1..])
  }

  function Lines(source: seq<char>): seq<seq<char>> {
    Split([], source)
  }

  method AddLine(s: Snapshot, line: seq<char>) returns (r: Snapshot)
    ensures r == AddedLine(s, line)
  {
    var boundaries: seq<nat> := s.boundaries + [0];
    var column: nat := 0;
    for k := 0 to |line|
      invariant boundaries + Columns(line[k..], column) == s.boundaries + [0] + Columns(line, 0)
    {
      assert line[k..][0] == line[k] && line[k..][1..] == line[k + 1..];
      column := (column + Utf16Len(line[k])) % (U32_MAX + 1);
      boundaries := boundaries + [column];
    }
    r := Snapshot(s.lineStarts + [|s.boundaries|], boundaries);
  }

  ghost predicate Scanned(source: seq<char>, start: nat, position: nat, done: seq<seq<char>>)
    requires start <= position <= |source|
  {
    done + Split(source[start..position], source[position..]) == Lines(source)
  }

  function BreakLength(source: seq<char>, position: nat): (n: nat)
    requires position < |source|
    ensures position + n <= |source|
  {
    if source[position] == CR && position + 1 < |source| && source[position + 1] == LF then 2 else 1
  }

  lemma ScanBreak(source: seq<char>, start: nat, position: nat, done: seq<seq<char>>)
    requires start <= position < |source| && (source[position] == CR || source[position] == LF)
    requires Scanned(source, start, position, done)
    ensures var after := position + BreakLength(source, position);
            Scanned(source, after, after, done + [source[start..position]])
  {
  }

  lemma ScanOn(source: seq<char>, start: nat, position: nat, done: seq<seq<char>>)
    requires start <= position < |source| && source[position] != CR && source[position] != LF
    requires Scanned(source, start, position, done)
    ensures Scanned(source, start, position + 1, done)
  {
    assert source[start..position] + [source[position]] == source[start..position + 1];
  }

  lemma IndexAppend(lines: seq<seq<char>>, line: seq<char>)
    ensures IndexOf(lines + [line]) == AddedLine(IndexOf(lines), line)
  {
  }

  method FromSource(source: seq<char>) returns (snapshot: Snapshot)
    ensures snapshot == IndexOf(Lines(source))
  {
    snapshot := Snapshot([], []);
    ghost var done: seq<seq<char>> := [];
    var start, position := 0, 0;
    while position < |source|
      invariant start <= position <= |source|
      invariant snapshot == IndexOf(done) && Scanned(source, start, position, done)
    {
      if source[position] == CR || source[position] == LF {
        snapshot := AddLine(snapshot, source[start..position]);
        IndexAppend(done, source[start..position]);
        ScanBreak(source, start, position, done);
        done := done + [source[start..position]];
        if source[position] == CR && position + 1 < |source| && source[position + 1] == LF {
          position := position + 1;
        }
        start := position + 1;
      } else {
        ScanOn(source, start, position, done);
      }
      position := position + 1;
    }
    IndexAppend(done, source[start..]);
    assert source[start..position] == source[start..];
    snapshot := AddLine(snapshot, source[start..]);
  }

  /** A binary search over a slice; what it finds is meaningful on increasing slices only. */
  function BinarySearch(s: seq<nat>, x: nat): bool {
    if s == [] then false
    else
      var mid := |s| / 2;
      if s[mid] == x then true
      else if s[mid] < x then BinarySearch(s[mid + 1..], x)
      else BinarySearch(s[..mid], x)
  }

  function LineSlice(s: Snapshot, line: nat): seq<nat>
    requires line < |s.lineStarts|
  {
    var start := s.lineStarts[line];
    var end := if line + 1 < |s.lineStarts| then s.lineStarts[line + 1] else |s.boundaries|;
    if start <= end <= |s.boundaries| then s.boundaries[start..end] else []
  }

  predicate ValidPosition(s: Snapshot, line: nat, column: nat) {
    line < |s.lineStarts| && BinarySearch(LineSlice(s, line), column)
  }

  // -------------------------------------------------------------------
  // The index accepts exactly the positions inside the lines
  // -------------------------------------------------------------------

  function Slots(line: seq<char>): seq<nat> {
    [0] + Columns(line, 0)
  }

  ghost predicate SlicedAt(s: Snapshot, lines: seq<seq<char>>, l: nat)
    requires l < |lines| == |s.lineStarts|
  {
    s.lineStarts[l] <= |s.boundaries| && LineSlice(s, l) == Slots(lines[l])
  }

  /** The slice of the index between two line starts holds the slots of that line. */
  ghost predicate Sliced(s: Snapshot, lines: seq<seq<char>>) {
    && |s.lineStarts| == |lines|
    && forall l | 0 <= l < |lines| :: SlicedAt(s, lines, l)
  }

  lemma AddedLineSlices(before: Snapshot, lines: seq<seq<char>>, line: seq<char>)
    requires Sliced(before, lines)
    ensures Sliced(AddedLine(before, line), lines + [line])
  {
    var s, more := AddedLine(before, line), lines + [line];
    assert s.boundaries == before.boundaries + Slots(line);
    forall l | 0 <= l < |more| ensures SlicedAt(s, more, l) {
      if l < |lines| {
        assert SlicedAt(before, lines, l);
        assert LineSlice(s, l) == LineSlice(before, l);
      }
    }
  }

  lemma {:induction false} IndexSlices(lines: seq<seq<char>>)
    ensures Sliced(IndexOf(lines), lines)
  {
    if lines == [] {
    } else {
      var front := lines[..|lines| - 1];
      IndexSlices(front);
      AddedLineSlices(IndexOf(front), front, lines[|lines| - 1]);
      assert lines == front + [lines[|lines| - 1]];
    }
  }

  ghost predicate Increasing(s: seq<nat>) {
    forall i, j | 0 <= i < j < |s| :: s[i] < s[j]
  }

  lemma {:induction false} BinarySearchFinds(s: seq<nat>, x: nat)
    requires Increasing(s)
    ensures BinarySearch(s, x) <==> x in s
  {
    if s == [] {
    } else {
      var mid := |s| / 2;
      assert s == s[..mid] + [s[mid]] + s[mid + 1..];
      BinarySearchFinds(s[mid + 1..], x);
      BinarySearchFinds(s[..mid], x);
    }
  }

  lemma {:induction false} ColumnsAreUnits(line: seq<char>, column: nat)
    requires column + Units(line) <= U32_MAX
    ensures forall k | 0 <= k < |line| :: Columns(line, column)[k] == column + Units(line[..k + 1])
  {
    if line == [] {
    } else {
      var next := column + Utf16Len(line[0]);
      ColumnsAreUnits(line[1..], next);
      assert Columns(line, column) == [next] + Columns(line[1..], next);
      forall k | 0 <= k < |line| ensures Columns(line, column)[k] == column + Units(line[..k + 1]) {
        assert line[..k + 1][1..] == line[1..][..k];
        if k > 0 {
          assert Columns(line[1..], next)[k - 1] == next + Units(line[1..][..k]);
        }
      }
    }
  }

  lemma IncreasingFrom(x: nat, s: seq<nat>)
    requires s != [] && x < s[0] && Increasing(s)
    ensures Increasing([x] + s)
  {
  }

  lemma {:induction false} ColumnsIncrease(line: seq<char>, column: nat)
    requires column + Units(line) <= U32_MAX
    ensures Increasing([column] + Columns(line, column))
  {
    if line == [] {
    } else {
      var next := column + Utf16Len(line[0]);
      ColumnsIncrease(line[1..], next);
      assert Columns(line, column) == [next] + Columns(line[1..], next);
      IncreasingFrom(column, Columns(line, column));
    }
  }

  function UnitsBefore(line: seq<char>, j: nat): nat
    requires j <= |line|
  {
    Units(line[..j])
  }

  ghost predicate OnLine(line: seq<char>, from: nat, column: nat) {
    exists j | from <= j <= |line| :: UnitsBefore(line, j) == column
  }

  lemma SlotAt(line: seq<char>, k: nat)
    requires Units(line) <= U32_MAX && k <= |line|
    ensures Slots(line)[k] == Units(line[..k])
  {
    ColumnsAreUnits(line, 0);
    if k > 0 {
      assert Slots(line)[k] == Columns(line, 0)[k - 1];
    }
  }

  lemma SlotsAreUnits(line: seq<char>, column: nat)
    requires Units(line) <= U32_MAX
    ensures Increasing(Slots(line))
    ensures column in Slots(line) <==> OnLine(line, 0, column)
  {
    ColumnsIncrease(line, 0);
    if OnLine(line, 0, column) {
      var j :| 0 <= j <= |line| && UnitsBefore(line, j) == column;
      SlotAt(line, j);
    }
    if column in Slots(line) {
      var k :| 0 <= k <= |line| && Slots(line)[k] == column;
      SlotAt(line, k);
      assert UnitsBefore(line, k) == column;
    }
  }

  lemma {:induction false} LineUnits(line: seq<char>, rest: seq<char>, l: nat)
    requires l < |Split(line, rest)|
    ensures Units(Split(line, rest)[l]) <= Units(line) + Units(rest)
    decreases |rest|
  {
    if rest == [] {
    } else if rest[0] == CR && |rest| > 1 && rest[1] == LF {
      UnitsConcat(rest[..2], rest[2..]);
      assert rest == rest[..2] + rest[2..];
      if l > 0 {
        LineUnits([], rest[2..], l - 1);
      }
    } else if rest[0] == CR || rest[0] == LF {
      if l > 0 {
        LineUnits([], rest[1..], l - 1);
      }
    } else {
      UnitsConcat(line, [rest[0]]);
      LineUnits(line + [rest[0]], rest[1..], l);
    }
  }

  /** The index accepts a position exactly when it is a character boundary of a line. */
  lemma IndexAccepts(source: seq<char>, line: nat, column: nat)
    requires Units(source) <= U32_MAX
    ensures ValidPosition(IndexOf(Lines(source)), line, column) <==>
              line < |Lines(source)| && OnLine(Lines(source)[line], 0, column)
  {
    IndexSlices(Lines(source));
    if line < |Lines(source)| {
      assert SlicedAt(IndexOf(Lines(source)), Lines(source), line);
      LineUnits([], source, line);
      SlotsAreUnits(Lines(source)[line], column);
      BinarySearchFinds(Slots(Lines(source)[line]), column);
    }
  }

  // -------------------------------------------------------------------
  // The walk reaches exactly the positions inside the lines
  // -------------------------------------------------------------------

  /** A boundary of the lines that a split of `line` and what follows yields, not before the end of `line`. */
  ghost predicate Inside(lines: seq<seq<char>>, first: nat, from: nat, q: Position) {
    first <= q.line && InsideLine(lines, q.line - first, from, q.column)
  }

  ghost predicate InsideLine(lines: seq<seq<char>>, i: nat, from: nat, column: nat) {
    i < |lines| && OnLine(lines[i], if i == 0 then from else 0, column)
  }

  function WalkedTo(p: Cursor, rest: seq<char>, k: nat): Position
    requires k <= |rest|
  {
    Walk(p, rest[..k]).Here()
  }

  ghost predicate Reached(p: Cursor, rest: seq<char>, q: Position) {
    exists k | 0 <= k <= |rest| :: WalkedTo(p, rest, k) == q
  }

  lemma WalkedOn(p: Cursor, rest: seq<char>, k: nat)
    requires 0 < k <= |rest|
    ensures WalkedTo(p, rest, k) == WalkedTo(Advance(p, rest[0]), rest[1..], k - 1)
  {
    assert rest[..k][1..] == rest[1..][..k - 1];
  }

  lemma ReachedStep(p: Cursor, rest: seq<char>, q: Position)
    requires rest != []
    ensures Reached(p, rest, q) <==> p.Here() == q || Reached(Advance(p, rest[0]), rest[1..], q)
  {
    var next := Advance(p, rest[0]);
    assert WalkedTo(p, rest, 0) == p.Here();
    if Reached(p, rest, q) {
      var k :| 0 <= k <= |rest| && WalkedTo(p, rest, k) == q;
      if k > 0 {
        WalkedOn(p, rest, k);
      }
    }
    if Reached(next, rest[1..], q) {
      var k :| 0 <= k <= |rest[1..]| && WalkedTo(next, rest[1..], k) == q;
      WalkedOn(p, rest, k + 1);
    }
  }

  lemma InsideFirst(line: seq<char>, later: seq<seq<char>>, first: nat, from: nat, q: Position)
    requires q.line == first
    ensures Inside([line] + later, first, from, q) <==> OnLine(line, from, q.column)
  {
  }

  lemma InsideLater(line: seq<char>, later: seq<seq<char>>, first: nat, from: nat, q: Position)
    requires q.line != first
    ensures Inside([line] + later, first, from, q) <==> Inside(later, first + 1, 0, q)
  {
  }

  lemma OnLineEnd(line: seq<char>, column: nat)
    ensures OnLine(line, |line|, column) <==> column == Units(line)
  {
    assert UnitsBefore(line, |line|) == Units(line) by {
      assert line[..|line|] == line;
    }
  }

  lemma InsideBreak(line: seq<char>, later: seq<seq<char>>, first: nat, q: Position)
    requires later != []
    ensures Inside([line] + later, first, |line|, q) <==>
              q == Position(first, Units(line)) || Inside(later, first + 1, 0, q)
  {
    if q.line == first {
      InsideFirst(line, later, first, |line|, q);
      OnLineEnd(line, q.column);
    } else {
      InsideLater(line, later, first, |line|, q);
    }
  }

  lemma OnLineFrom(whole: seq<char>, from: nat, column: nat)
    requires from < |whole|
    ensures OnLine(whole, from, column) <==> column == UnitsBefore(whole, from) || OnLine(whole, from + 1, column)
  {
  }

  lemma UnitsOfPrefix(whole: seq<char>, line: seq<char>)
    requires line <= whole
    ensures UnitsBefore(whole, |line|) == Units(line)
  {
    assert whole[..|line|] == line;
  }

  lemma InsideExtend(lines: seq<seq<char>>, line: seq<char>, c: char, first: nat, q: Position)
    requires lines != [] && line + [c] <= lines[0]
    ensures Inside(lines, first, |line|, q) <==>
              q == Position(first, Units(line)) || Inside(lines, first, |line| + 1, q)
  {
    UnitsOfPrefix(lines[0], line);
    OnLineFrom(lines[0], |line|, q.column);
  }

  lemma WalkAtEnd(line: seq<char>, p: Cursor, q: Position)
    requires p.column == Units(line)
    ensures Reached(p, [], q) <==> Inside([line], p.line, |line|, q)
  {
    ReachedHere(p, []);
    OnLineEnd(line, q.column);
  }

  lemma CrLfStep(p: Cursor, rest: seq<char>, q: Position)
    requires |rest| > 1 && rest[0] == CR && rest[1] == LF
    ensures Reached(p, rest, q) <==> p.Here() == q || Reached(Advance(Advance(p, CR), LF), rest[2..], q)
  {
    var next := Advance(p, CR);
    ReachedStep(p, rest, q);
    ReachedStep(next, rest[1..], q);
    assert rest[1..][1..] == rest[2..];
    ReachedHere(Advance(next, LF), rest[2..]);
  }

  lemma WalkOverBreak(line: seq<char>, later: seq<seq<char>>, p: Cursor, q: Position, reached: bool, onward: bool)
    requires later != [] && p.column == Units(line)
    requires onward <==> Inside(later, p.line + 1, 0, q)
    requires reached <==> p.Here() == q || onward
    ensures reached <==> Inside([line] + later, p.line, |line|, q)
  {
    InsideBreak(line, later, p.line, q);
  }

  lemma {:induction false} WalkCovers(line: seq<char>, rest: seq<char>, p: Cursor, q: Position)
    requires p.column == Units(line)
    requires p.afterCr ==> rest == [] || rest[0] != LF
    ensures Reached(p, rest, q) <==> Inside(Split(line, rest), p.line, |line|, q)
    decreases |rest|
  {
    if rest == [] {
      WalkAtEnd(line, p, q);
    } else {
      var next := Advance(p, rest[0]);
      if rest[0] == CR && |rest| > 1 && rest[1] == LF {
        WalkCovers([], rest[2..], Advance(next, LF), q);
        CrLfStep(p, rest, q);
        WalkOverBreak(line, Split([], rest[2..]), p, q, Reached(p, rest, q), Reached(Advance(next, LF), rest[2..], q));
      } else if rest[0] == CR || rest[0] == LF {
        WalkCovers([], rest[1..], next, q);
        ReachedStep(p, rest, q);
        WalkOverBreak(line, Split([], rest[1..]), p, q, Reached(p, rest, q), Reached(next, rest[1..], q));
      } else {
        UnitsConcat(line, [rest[0]]);
        WalkCovers(line + [rest[0]], rest[1..], next, q);
        ReachedStep(p, rest, q);
        InsideExtend(Split(line, rest), line, rest[0], p.line, q);
      }
    }
  }

  lemma PositionReached(source: seq<char>, q: Position)
    ensures Reached(ORIGIN, source, q) <==> exists k | 0 <= k <= |source| :: PositionAt(source, k) == q
  {
    if Reached(ORIGIN, source, q) {
      var k :| 0 <= k <= |source| && WalkedTo(ORIGIN, source, k) == q;
      assert PositionAt(source, k) == q;
    }
    if k :| 0 <= k <= |source| && PositionAt(source, k) == q {
      assert WalkedTo(ORIGIN, source, k) == q;
    }
  }

  lemma ReachedHere(p: Cursor, rest: seq<char>)
    ensures Reached(p, rest, p.Here())
  {
    assert WalkedTo(p, rest, 0) == p.Here();
  }

  lemma IndexAcceptsReached(source: seq<char>, line: nat, column: nat)
    requires Units(source) <= U32_MAX
    ensures ValidPosition(IndexOf(Lines(source)), line, column) <==> Reached(ORIGIN, source, Position(line, column))
  {
    var q := Position(line, column);
    IndexAccepts(source, line, column);
    WalkCovers([], source, ORIGIN, q);
    assert Inside(Lines(source), 0, 0, q) == InsideLine(Lines(source), line, 0, column);
  }

  /** Every character raises line and column together by at most its units, so neither count can leave 32 bits before the text does. */
  lemma {:induction false} CountsWithinUnits(p: Cursor, s: seq<char>)
    ensures var q := Walk(p, s); q.line + q.column <= p.line + p.column + Units(s)
    decreases |s|
  {
    if s == [] {
    } else {
      CountsWithinUnits(Advance(p, s[0]), s[1..]);
    }
  }

  lemma BoundaryFits(source: seq<char>, k: nat)
    requires Units(source) <= U32_MAX && k <= |source|
    ensures FitsU32(source, k)
  {
    forall j | 0 <= j <= k ensures PositionAt(source, j).line <= U32_MAX && PositionAt(source, j).column <= U32_MAX {
      CountsWithinUnits(ORIGIN, source[..j]);
      UnitsConcat(source[..j], source[j..]);
      assert source[..j] + source[j..] == source;
    }
  }

  // -------------------------------------------------------------------
  // What a position means
  // -------------------------------------------------------------------

  lemma {:induction false} CrColumn(source: seq<char>, k: nat)
    requires k <= |source|
    ensures var p := Walk(ORIGIN, source[..k]);
            && (p.afterCr <==> k > 0 && source[k - 1] == CR)
            && (p.afterCr ==> p.column == 0)
  {
    if k == 0 {
    } else {
      CrColumn(source, k - 1);
      assert source[..k] == source[..k - 1] + [source[k - 1]];
      WalkConcat(ORIGIN, source[..k - 1], [source[k - 1]]);
      var p := Walk(ORIGIN, source[..k - 1]);
      assert Walk(p, [source[k - 1]]) == Advance(p, source[k - 1]);
    }
  }

  /** The character at i ends a line by itself or begins the CR LF that does. */
  predicate EndsLine(source: seq<char>, i: nat)
    requires i < |source|
  {
    source[i] == CR || (source[i] == LF && !(i > 0 && source[i - 1] == CR))
  }

  function LineEnds(source: seq<char>, k: nat): set<nat>
    requires k <= |source|
  {
    set i: nat | i < k && EndsLine(source, i)
  }

  predicate LineBreak(c: char) { c == CR || c == LF }

  /** Where the line with the k-th boundary begins: just after the last line break before it. */
  function LineBegin(source: seq<char>, k: nat): (begin: nat)
    requires k <= |source|
    ensures begin <= k && (begin > 0 ==> LineBreak(source[begin - 1]))
    ensures forall i | begin <= i < k :: !LineBreak(source[i])
  {
    if k == 0 || LineBreak(source[k - 1]) then k else LineBegin(source, k - 1)
  }

  /** The protocol's position of a boundary: the line ends before it, and the UTF-16 units since the last line break. */
  function Meaning(source: seq<char>, k: nat): Position
    requires k <= |source|
  {
    Position(|LineEnds(source, k)|, |EncodeUtf16(source[LineBegin(source, k)..k])|)
  }

  lemma WalkOne(source: seq<char>, k: nat)
    requires k < |source|
    ensures Walk(ORIGIN, source[..k + 1]) == Advance(Walk(ORIGIN, source[..k]), source[k])
  {
    assert source[..k + 1] == source[..k] + [source[k]];
    WalkConcat(ORIGIN, source[..k], [source[k]]);
    var p := Walk(ORIGIN, source[..k]);
    assert Walk(p, [source[k]]) == Advance(p, source[k]);
  }

  lemma ColumnOn(source: seq<char>, k: nat)
    requires k < |source| && !LineBreak(source[k])
    ensures Meaning(source, k + 1).column == Meaning(source, k).column + Utf16Len(source[k])
  {
    var begin := LineBegin(source, k);
    assert LineBegin(source, k + 1) == begin;
    var line := source[begin..k];
    assert source[begin..k + 1] == line + [source[k]];
    UnitsConcat(line, [source[k]]);
    UnitsCounted(line);
    UnitsCounted(line + [source[k]]);
  }

  lemma LineOn(source: seq<char>, k: nat)
    requires k < |source|
    ensures Meaning(source, k + 1).line == Meaning(source, k).line + if EndsLine(source, k) then 1 else 0
  {
    assert LineEnds(source, k + 1) == LineEnds(source, k) + if EndsLine(source, k) then {k} else {};
  }

  lemma BreakOn(source: seq<char>, k: nat)
    requires k < |source| && LineBreak(source[k])
    ensures Meaning(source, k + 1).column == 0
  {
    assert LineBegin(source, k + 1) == k + 1;
    assert source[k + 1..k + 1] == [];
  }

  lemma PositionOn(source: seq<char>, k: nat)
    requires k < |source| && PositionAt(source, k) == Meaning(source, k)
    ensures PositionAt(source, k + 1) == Meaning(source, k + 1)
  {
    CrColumn(source, k);
    WalkOne(source, k);
    LineOn(source, k);
    if LineBreak(source[k]) {
      BreakOn(source, k);
    } else {
      ColumnOn(source, k);
    }
  }

  /** The walk computes the protocol's position. */
  lemma {:induction false} PositionMeans(source: seq<char>, k: nat)
    requires k <= |source|
    ensures PositionAt(source, k) == Meaning(source, k)
  {
    if k == 0 {
      assert LineEnds(source, 0) == {};
    } else {
      PositionMeans(source, k - 1);
      PositionOn(source, k - 1);
    }
  }

  /** The byte offsets of a text that are character boundaries. */
  ghost predicate BoundaryAt(source: seq<char>, k: nat, byteOffset: nat) {
    k <= |source| && |EncodeUtf8(source[..k])| == byteOffset
  }

  /**
   The conversion has a value exactly at the byte offsets, in the text's UTF-8 form, of character
   boundaries: the protocol's position of that boundary.
  */
  lemma BoundaryConverted(source: seq<char>, byteOffset: nat)
    requires Units(source) <= U32_MAX
    ensures Converted(source, byteOffset).Some? <==> exists k: nat :: BoundaryAt(source, k, byteOffset)
    ensures forall k: nat | BoundaryAt(source, k, byteOffset) :: Converted(source, byteOffset) == Some(Meaning(source, k))
  {
    forall k: nat | BoundaryAt(source, k, byteOffset) ensures Converted(source, byteOffset) == Some(Meaning(source, k)) {
      BytesCounted(source[..k]);
      BoundaryFound(source, k);
      BoundaryFits(source, k);
      PositionMeans(source, k);
    }
    var count := CharsBefore(source, byteOffset);
    if count.Some? {
      BytesCounted(source[..count.value]);
      assert BoundaryAt(source, count.value, byteOffset);
    }
  }

  /**
   The two algorithms agree, and with the protocol: the index accepts exactly the positions of
   character boundaries, and over all byte offsets of a text the conversion yields exactly those.
  */
  lemma PositionsAgree(source: seq<char>, line: nat, column: nat)
    requires Units(source) <= U32_MAX
    ensures var q := Position(line, column);
            && (ValidPosition(IndexOf(Lines(source)), line, column) <==>
                  exists k | 0 <= k <= |source| :: Meaning(source, k) == q)
            && (ValidPosition(IndexOf(Lines(source)), line, column) <==>
                  exists byteOffset: nat :: Converted(source, byteOffset) == Some(q))
  {
    var q := Position(line, column);
    IndexAcceptsReached(source, line, column);
    PositionReached(source, q);
    if k :| 0 <= k <= |source| && PositionAt(source, k) == q {
      PositionMeans(source, k);
      assert BoundaryAt(source, k, |EncodeUtf8(source[..k])|);
      BoundaryConverted(source, |EncodeUtf8(source[..k])|);
    }
    if k :| 0 <= k <= |source| && Meaning(source, k) == q {
      PositionMeans(source, k);
    }
    if byteOffset: nat :| Converted(source, byteOffset) == Some(q) {
      assert PositionAt(source, CharsBefore(source, byteOffset).value) == q;
    }
  }

  // -------------------------------------------------------------------
  // Order of positions
  // -------------------------------------------------------------------

  predicate Before(p: Position, q: Position) {
    p.line < q.line || (p.line == q.line && p.column < q.column)
  }

  predicate InsideCrLf(source: seq<char>, k: nat)
    requires k <= |source|
  {
    0 < k < |source| && source[k - 1] == CR && source[k] == LF
  }

  lemma StepForward(source: seq<char>, k: nat)
    requires k < |source|
    ensures InsideCrLf(source, k) ==> PositionAt(source, k) == PositionAt(source, k + 1)
    ensures !InsideCrLf(source, k) ==> Before(PositionAt(source, k), PositionAt(source, k + 1))
  {
    CrColumn(source, k);
    WalkOne(source, k);
  }

  /** Later boundaries never have earlier positions, and only the boundary inside a CR LF shares its position with the next one. */
  lemma {:induction false} PositionsOrdered(source: seq<char>, i: nat, j: nat)
    requires i < j <= |source|
    ensures if j == i + 1 && InsideCrLf(source, i) then PositionAt(source, i) == PositionAt(source, j)
            else Before(PositionAt(source, i), PositionAt(source, j))
    decreases j - i
  {
    StepForward(source, j - 1);
    if j <= i + 1 {
    } else {
      PositionsOrdered(source, i, j - 1);
      assert j == i + 2 && InsideCrLf(source, i) ==> !InsideCrLf(source, i + 1);
    }
  }
}
