/** The source excerpt of a definition: whole lines within a byte budget, or a labelled part of the first line. */
module DefinitionExcerpt {
  import opened Options
  import opened Sequences
  import opened SourceText

  // -------------------------------------------------------------------
  // Lines
  // -------------------------------------------------------------------

  const LF := '\n'

  function LineSize(s: seq<char>): (n: nat)
    ensures n <= |s| && (s != [] ==> n > 0)
    ensures forall i | 0 <= i < n - 1 :: s[i] != LF
    ensures n < |s| ==> s[n - 1] == LF
  {
    if s == [] then 0 else if s[0] == LF then 1 else 1 + LineSize(s[1..])
  }

  /** A line has at most one line feed, at its end. */
  predicate IsLine(line: seq<char>) {
    line != [] && forall i | 0 <= i < |line| - 1 :: line[i] != LF
  }

  predicate Closed(line: seq<char>) {
    line != [] && line[|line| - 1] == LF
  }

  /** `split_inclusive('\n')`: lines that keep their line feed; only the last one may have none. */
  function SplitInclusive(s: seq<char>): (lines: seq<seq<char>>)
    ensures forall k | 0 <= k < |lines| :: IsLine(lines[k]) && (k < |lines| - 1 ==> Closed(lines[k]))
    decreases |s|
  {
    if s == [] then [] else [s[..LineSize(s)]] + SplitInclusive(s[LineSize(s)..])
  }

  lemma {:induction false} SplitKeepsText(s: seq<char>)
    ensures Concat(SplitInclusive(s)) == s
    decreases |s|
  {
    if s == [] {
    } else {
      SplitKeepsText(s[LineSize(s)..]);
    }
  }

  /** Where a line of a text starts. */
  function LineStart(lines: seq<seq<char>>, line: nat): nat
    requires line <= |lines|
  {
    |Concat(lines[..line])|
  }

  function LineFeeds(s: seq<char>): nat {
    multiset(s)[LF]
  }

  lemma LineFeedsOfLine(line: seq<char>)
    requires IsLine(line)
    ensures LineFeeds(line) == if Closed(line) then 1 else 0
  {
    var n := |line| - 1;
    assert line == line[..n] + [line[n]];
    assert LF !in line[..n];
  }

  lemma LineFeedsConcat(a: seq<char>, b: seq<char>)
    ensures LineFeeds(a + b) == LineFeeds(a) + LineFeeds(b)
  {
  }

  /** The character at `start` is the first one after the n-th line feed, or the first one of all for n = 0. */
  predicate AfterLineFeed(content: seq<char>, n: nat, start: nat) {
    && start <= |content|
    && (start == 0 || content[start - 1] == LF)
    && LineFeeds(content[..start]) == n
  }

  /** How many lines a text has: one for each line feed, and one for what follows the last of them. */
  function LineCount(content: seq<char>): nat {
    LineFeeds(content) + if content == [] || Closed(content) then 0 else 1
  }

  lemma FirstLineSplit(s: seq<char>)
    requires s != []
    ensures var line, rest := s[..LineSize(s)], s[LineSize(s)..];
            && s == line + rest && SplitInclusive(s) == [line] + SplitInclusive(rest)
            && IsLine(line) && (rest != [] ==> Closed(line))
  {
    var n, lines := LineSize(s), SplitInclusive(s);
    assert s == s[..n] + s[n..];
    assert lines == [s[..n]] + SplitInclusive(s[n..]);
  }

  lemma OneMoreLine(line: seq<char>, rest: seq<char>)
    requires IsLine(line) && (rest != [] ==> Closed(line))
    ensures LineCount(line + rest) == 1 + LineCount(rest)
  {
    LineFeedsOfLine(line);
    LineFeedsConcat(line, rest);
    if rest == [] {
      assert line + rest == line;
    } else {
      assert (line + rest)[|line + rest| - 1] == rest[|rest| - 1];
    }
  }

  lemma {:induction false} LinesCounted(s: seq<char>)
    ensures |SplitInclusive(s)| == LineCount(s)
    decreases |s|
  {
    if s == [] {
    } else {
      FirstLineSplit(s);
      OneMoreLine(s[..LineSize(s)], s[LineSize(s)..]);
      LinesCounted(s[LineSize(s)..]);
    }
  }

  lemma AfterFirstLine(line: seq<char>, rest: seq<char>, n: nat, start: nat)
    requires IsLine(line) && Closed(line) && AfterLineFeed(rest, n, start)
    ensures AfterLineFeed(line + rest, n + 1, |line| + start)
  {
    assert (line + rest)[..|line| + start] == line + rest[..start];
    LineFeedsOfLine(line);
    LineFeedsConcat(line, rest[..start]);
    if start > 0 {
      assert (line + rest)[|line| + start - 1] == rest[start - 1];
    }
  }

  lemma LaterStart(line: seq<char>, rest: seq<char>, lines: seq<seq<char>>, i: nat)
    requires i <= |lines| && IsLine(line) && Closed(line) && AfterLineFeed(rest, i, LineStart(lines, i))
    ensures AfterLineFeed(line + rest, i + 1, LineStart([line] + lines, i + 1))
  {
    assert ([line] + lines)[..i + 1] == [line] + lines[..i];
    AfterFirstLine(line, rest, i, LineStart(lines, i));
  }

  /** The i-th line starts right after the i-th line feed. */
  lemma {:induction false} LinesStart(s: seq<char>, i: nat)
    requires i < |SplitInclusive(s)|
    ensures AfterLineFeed(s, i, LineStart(SplitInclusive(s), i))
    decreases |s|
  {
    if i == 0 {
      assert s[..0] == [];
    } else {
      var line, rest := s[..LineSize(s)], s[LineSize(s)..];
      FirstLineSplit(s);
      LinesStart(rest, i - 1);
      LaterStart(line, rest, SplitInclusive(rest), i - 1);
    }
  }

  /** Where the first n lines of a text end: right after the n-th line feed, or at the end of a text whose last line has none. */
  predicate AfterLine(content: seq<char>, n: nat, end: nat) {
    AfterLineFeed(content, n, end) || (end == |content| && !Closed(content) && n == LineCount(content))
  }

  lemma LinesEnd(s: seq<char>, i: nat)
    requires i <= LineCount(s)
    ensures i <= |SplitInclusive(s)| && AfterLine(s, i, LineStart(SplitInclusive(s), i))
  {
    LinesCounted(s);
    if i < LineCount(s) {
      LinesStart(s, i);
    } else {
      var lines := SplitInclusive(s);
      assert lines[..i] == lines;
      SplitKeepsText(s);
      assert s[..|s|] == s;
    }
  }

  lemma MiddleIsSlice(a: seq<char>, b: seq<char>, c: seq<char>)
    ensures SliceFrom(a + (b + c), |a|, b)
  {
  }

  lemma ConcatMiddle(before: seq<seq<char>>, middle: seq<seq<char>>, after: seq<seq<char>>)
    ensures SliceFrom(Concat(before + (middle + after)), |Concat(before)|, Concat(middle))
  {
    ConcatParts(before, middle + after);
    ConcatParts(middle, after);
    MiddleIsSlice(Concat(before), Concat(middle), Concat(after));
  }

  lemma CutTwice(lines: seq<seq<char>>, i: nat, j: nat)
    requires i <= j <= |lines|
    ensures lines[..i] + (lines[i..j] + lines[j..]) == lines
  {
  }

  lemma LinesAreSlice(lines: seq<seq<char>>, i: nat, j: nat)
    requires i <= j <= |lines|
    ensures SliceFrom(Concat(lines), LineStart(lines, i), Concat(lines[i..j]))
  {
    CutTwice(lines, i, j);
    ConcatMiddle(lines[..i], lines[i..j], lines[j..]);
  }

  lemma OneLine(lines: seq<seq<char>>, i: nat)
    requires i < |lines|
    ensures Concat(lines[i..i + 1]) == lines[i]
  {
    assert lines[i..i + 1] == [] + [lines[i]];
    ConcatSnoc([], lines[i]);
  }

  lemma BytesGrow(lines: seq<seq<char>>, i: nat, j: nat, k: nat)
    requires i <= j <= k <= |lines|
    ensures ByteLen(Concat(lines[i..j])) <= ByteLen(Concat(lines[i..k]))
  {
    assert lines[i..k] == lines[i..j] + lines[j..k];
    ConcatParts(lines[i..j], lines[j..k]);
    ByteLenConcat(Concat(lines[i..j]), Concat(lines[j..k]));
  }

  // -------------------------------------------------------------------
  // The excerpt
  // -------------------------------------------------------------------

  predicate IsBreak(c: char) { c == '\r' || c == LF }

  /** How many characters of a line are left of the breaks at its end. */
  function Trimmed(line: seq<char>): (n: nat)
    ensures n <= |line| && (n > 0 ==> !IsBreak(line[n - 1]))
    ensures forall i | n <= i < |line| :: IsBreak(line[i])
  {
    if line != [] && IsBreak(line[|line| - 1]) then Trimmed(line[..|line| - 1]) else |line|
  }

  /** `str::get(from..to)` in bytes: how many characters precede each end, or None off a boundary. */
  function ByteRange(line: seq<char>, from: nat, to: nat): (r: Option<(nat, nat)>)
    ensures r.Some? ==> r.value.0 <= r.value.1 <= |line|
  {
    var a, b := CharsBefore(line, from), CharsBefore(line, to);
    if from <= to && a.Some? && b.Some? && a.value <= b.value then Some((a.value, b.value)) else None
  }

  datatype Excerpt =
    | Unavailable
    | Lines(endLine: nat, text: seq<char>, truncated: bool)
    | ColumnFragment(text: seq<char>)

  /** The lines a node claims, numbered from 1 and never empty. */
  function First(startLine: nat): (n: nat)
    ensures n > 0
  {
    if startLine == 0 then 1 else startLine
  }

  function Last(startLine: nat, endLine: nat): (n: nat)
    ensures n >= First(startLine)
  {
    if endLine < First(startLine) then First(startLine) else endLine
  }

  /** The text is one stretch of the file from a given character. */
  ghost predicate SliceFrom(content: seq<char>, from: nat, text: seq<char>) {
    from + |text| <= |content| && content[from..from + |text|] == text
  }

  /** A whole definition of at most `maxBytes` bytes is in the file. */
  predicate Fits(lines: seq<seq<char>>, first: nat, last: nat, maxBytes: nat) {
    0 < first <= last <= |lines| && ByteLen(Concat(lines[first - 1..last])) <= maxBytes
  }

  /** The characters of its first line that belong to a definition, if its columns are boundaries before the line's end. */
  function DefinitionPart(line: seq<char>, sameLine: bool, startColumn: nat, endColumn: nat): (r: Option<(nat, nat)>)
    ensures r.Some? ==> r.value.0 < r.value.1 <= |line| && CharsBefore(line, startColumn) == Some(r.value.0)
  {
    var lineEnd := ByteLen(line[..Trimmed(line)]);
    var definitionEnd := if sameLine then endColumn else lineEnd;
    var range := ByteRange(line, startColumn, definitionEnd);
    if range.None? || definitionEnd > lineEnd || range.value.0 == range.value.1 then None else range
  }

  lemma PrefixesOrdered(s: seq<char>, a: nat, b: nat)
    requires a <= |s| && b <= |s|
    ensures ByteLen(s[..a]) <= ByteLen(s[..b]) <==> a <= b
  {
    var low, high := if a <= b then a else b, if a <= b then b else a;
    assert s[..high] == s[..low] + s[low..high];
    ByteLenConcat(s[..low], s[low..high]);
  }

  /** A definition has the characters of its line between its two byte columns, which are boundaries before the line's breaks. */
  lemma PartMeans(line: seq<char>, sameLine: bool, startColumn: nat, endColumn: nat, a: nat, b: nat)
    requires a < b <= |line|
    ensures DefinitionPart(line, sameLine, startColumn, endColumn) == Some((a, b)) <==>
              && b <= Trimmed(line)
              && ByteLen(line[..a]) == startColumn
              && if sameLine then ByteLen(line[..b]) == endColumn else b == Trimmed(line)
  {
    BoundaryFound(line, a);
    BoundaryFound(line, b);
    PrefixesOrdered(line, a, b);
    PrefixesOrdered(line, b, Trimmed(line));
    PrefixesOrdered(line, Trimmed(line), b);
  }

  ghost predicate StopsShort(line: seq<char>, maxBytes: nat, startColumn: nat) {
    forall t | Longest(line, maxBytes, t) :: ByteLen(t) <= startColumn
  }

  /**
   A line too long for the budget: as much of its beginning as fits, if that reaches into the
   definition, else as much of the definition's own part, else nothing.
  */
  ghost predicate LongLineExcerpt(line: seq<char>, sameLine: bool, first: nat, startColumn: nat, endColumn: nat, maxBytes: nat,
                                  r: Excerpt) {
    var part := DefinitionPart(line, sameLine, startColumn, endColumn);
    && (r.Lines? ==> r.endLine == first && r.truncated && Longest(line, maxBytes, r.text) && startColumn < ByteLen(r.text))
    && (r.ColumnFragment? ==> part.Some? && Longest(line[part.value.0..part.value.1], maxBytes, r.text))
    && (r.Unavailable? ==> part.None?)
    && (!r.Lines? ==> StopsShort(line, maxBytes, startColumn))
  }

  method LongLine(line: seq<char>, sameLine: bool, first: nat, startColumn: nat, endColumn: nat, maxBytes: nat) returns (r: Excerpt)
    ensures LongLineExcerpt(line, sameLine, first, startColumn, endColumn, maxBytes, r)
  {
    var end := FloorBoundary(line, maxBytes);
    assert Longest(line, maxBytes, line[..end]);
    if ByteLen(line[..end]) <= startColumn {
      forall t | Longest(line, maxBytes, t) ensures t == line[..end] {
        LongestUnique(line, maxBytes, t, line[..end]);
      }
      var range := DefinitionPart(line, sameLine, startColumn, endColumn);
      if range.None? { return Unavailable; }
      var fragment := line[range.value.0..range.value.1];
      return ColumnFragment(fragment[..FloorBoundary(fragment, maxBytes)]);
    }
    r := Lines(first, line[..end], true);
  }

  /** As much of a definition as the file and the budget allow. */
  ghost predicate FullestExcerpt(lines: seq<seq<char>>, first: nat, last: nat, startColumn: nat, endColumn: nat, maxBytes: nat,
                                 r: Excerpt)
    requires 0 < first <= last
  {
    if |lines| < first then r == Unavailable
    else if maxBytes < ByteLen(lines[first - 1]) then
      LongLineExcerpt(lines[first - 1], first == last, first, startColumn, endColumn, maxBytes, r)
    else
      && r.Lines? && first <= r.endLine <= last && r.endLine <= |lines|
      && r.text == Concat(lines[first - 1..r.endLine]) && ByteLen(r.text) <= maxBytes
      && (r.truncated <==> r.endLine < last)
      && (r.endLine < last && r.endLine < |lines| ==> maxBytes < ByteLen(Concat(lines[first - 1..r.endLine + 1])))
  }

  /**
   An available excerpt is one stretch of the verified file within the budget, from the first line of
   the definition or, for a fragment, from its start column. It is reported complete exactly when the
   whole definition is in the file and fits, and then it is exactly those lines.
  */
  ghost predicate FaithfulExcerpt(content: seq<char>, lines: seq<seq<char>>, first: nat, last: nat, startColumn: nat,
                                  maxBytes: nat, r: Excerpt)
    requires 0 < first <= last
  {
    if |lines| < first then r == Unavailable
    else
      var start, part := LineStart(lines, first - 1), CharsBefore(lines[first - 1], startColumn);
      && StretchOf(content, start, part, first, last, maxBytes, r)
      && CompleteIf(Fits(lines, first, last, maxBytes), last, r)
      && (Fits(lines, first, last, maxBytes) ==> r.text == Concat(lines[first - 1..last]))
  }

  /** One stretch of the text within the budget, from a line's start or from a part of that line. */
  ghost predicate StretchOf(content: seq<char>, start: nat, part: Option<nat>, first: nat, last: nat, maxBytes: nat, r: Excerpt) {
    && (!r.Unavailable? ==> ByteLen(r.text) <= maxBytes)
    && (r.Lines? ==> SliceFrom(content, start, r.text) && first <= r.endLine <= last)
    && (r.ColumnFragment? ==> part.Some? && SliceFrom(content, start + part.value, r.text))
  }

  predicate CompleteIf(fits: bool, last: nat, r: Excerpt) {
    (r.Lines? && !r.truncated <==> fits) && (fits ==> r.Lines? && r.endLine == last)
  }

  lemma LineAdded(lines: seq<seq<char>>, from: nat, index: nat)
    requires from <= index < |lines|
    ensures Concat(lines[from..index + 1]) == Concat(lines[from..index]) + lines[index]
    ensures ByteLen(Concat(lines[from..index + 1])) == ByteLen(Concat(lines[from..index])) + ByteLen(lines[index])
  {
    assert lines[from..index + 1] == lines[from..index] + [lines[index]];
    ConcatSnoc(lines[from..index], lines[index]);
    ByteLenConcat(Concat(lines[from..index]), lines[index]);
  }

  /** Once a prefix of the definition exceeds the budget, the definition does. */
  lemma PrefixTooLong(lines: seq<seq<char>>, first: nat, last: nat, index: nat, maxBytes: nat)
    requires 0 < first <= index + 1 <= last && index < |lines|
    requires ByteLen(Concat(lines[first - 1..index + 1])) > maxBytes
    ensures !Fits(lines, first, last, maxBytes)
  {
    if last <= |lines| {
      BytesGrow(lines, first - 1, index + 1, last);
    }
  }

  lemma FitsToLast(lines: seq<seq<char>>, first: nat, last: nat, startColumn: nat, endColumn: nat, maxBytes: nat, r: Excerpt)
    requires 0 < first <= last && FullestExcerpt(lines, first, last, startColumn, endColumn, maxBytes, r)
    requires first <= |lines| && ByteLen(lines[first - 1]) <= maxBytes
    ensures Fits(lines, first, last, maxBytes) <==> r.endLine == last
  {
    if r.endLine < last && r.endLine < |lines| {
      PrefixTooLong(lines, first, last, r.endLine, maxBytes);
    }
  }

  lemma LinesFaithful(lines: seq<seq<char>>, first: nat, last: nat, startColumn: nat, endColumn: nat, maxBytes: nat, r: Excerpt)
    requires 0 < first <= last && FullestExcerpt(lines, first, last, startColumn, endColumn, maxBytes, r)
    requires first <= |lines| && ByteLen(lines[first - 1]) <= maxBytes
    ensures FaithfulExcerpt(Concat(lines), lines, first, last, startColumn, maxBytes, r)
  {
    FitsToLast(lines, first, last, startColumn, endColumn, maxBytes, r);
    LinesAreSlice(lines, first - 1, r.endLine);
  }

  lemma LongLineFitsNot(lines: seq<seq<char>>, first: nat, last: nat, maxBytes: nat)
    requires 0 < first <= last && first <= |lines| && maxBytes < ByteLen(lines[first - 1])
    ensures !Fits(lines, first, last, maxBytes)
    ensures SliceFrom(Concat(lines), LineStart(lines, first - 1), lines[first - 1])
  {
    OneLine(lines, first - 1);
    PrefixTooLong(lines, first, last, first - 1, maxBytes);
    LinesAreSlice(lines, first - 1, first);
  }

  lemma StretchFaithful(lines: seq<seq<char>>, first: nat, last: nat, startColumn: nat, maxBytes: nat, r: Excerpt)
    requires 0 < first <= last && first <= |lines| && !Fits(lines, first, last, maxBytes)
    requires StretchOf(Concat(lines), LineStart(lines, first - 1), CharsBefore(lines[first - 1], startColumn),
                       first, last, maxBytes, r)
    requires CompleteIf(false, last, r)
    ensures FaithfulExcerpt(Concat(lines), lines, first, last, startColumn, maxBytes, r)
  {
  }

  /** The fullest excerpt is a faithful one. */
  lemma FullestIsFaithful(lines: seq<seq<char>>, first: nat, last: nat, startColumn: nat, endColumn: nat, maxBytes: nat, r: Excerpt)
    requires 0 < first <= last && FullestExcerpt(lines, first, last, startColumn, endColumn, maxBytes, r)
    ensures FaithfulExcerpt(Concat(lines), lines, first, last, startColumn, maxBytes, r)
  {
    if |lines| < first {
    } else if maxBytes < ByteLen(lines[first - 1]) {
      var start := LineStart(lines, first - 1);
      LongLineFitsNot(lines, first, last, maxBytes);
      LongLineStretch(Concat(lines), start, lines[first - 1], first, last, startColumn, endColumn, maxBytes, r);
      StretchFaithful(lines, first, last, startColumn, maxBytes, r);
    } else {
      LinesFaithful(lines, first, last, startColumn, endColumn, maxBytes, r);
    }
  }

  lemma LongLineStretch(content: seq<char>, start: nat, line: seq<char>, first: nat, last: nat, startColumn: nat, endColumn: nat,
                        maxBytes: nat, r: Excerpt)
    requires first <= last && SliceFrom(content, start, line)
    requires LongLineExcerpt(line, first == last, first, startColumn, endColumn, maxBytes, r)
    ensures StretchOf(content, start, CharsBefore(line, startColumn), first, last, maxBytes, r) && CompleteIf(false, last, r)
  {
    if r.ColumnFragment? {
      var part := DefinitionPart(line, first == last, startColumn, endColumn).value;
      PartStretch(content, start, line, part.0, part.1, maxBytes, r.text);
    } else if r.Lines? {
      BeginningStretch(content, start, line, r.text);
    }
  }

  lemma BeginningStretch(content: seq<char>, start: nat, line: seq<char>, text: seq<char>)
    requires SliceFrom(content, start, line) && text <= line
    ensures SliceFrom(content, start, text)
  {
    SliceOfSlice(content, start, line, 0, text);
  }

  lemma PartStretch(content: seq<char>, start: nat, line: seq<char>, a: nat, b: nat, maxBytes: nat, text: seq<char>)
    requires SliceFrom(content, start, line) && a <= b <= |line| && Longest(line[a..b], maxBytes, text)
    ensures SliceFrom(content, start + a, text) && ByteLen(text) <= maxBytes
  {
    FragmentOfLine(line, a, b, text);
    SliceOfSlice(content, start, line, a, text);
  }

  lemma FragmentOfLine(line: seq<char>, a: nat, b: nat, text: seq<char>)
    requires a <= b <= |line| && text <= line[a..b]
    ensures SliceFrom(line, a, text)
  {
    SliceOfSlice(line, a, line[a..b], 0, text);
  }

  lemma SliceOfSlice(content: seq<char>, from: nat, line: seq<char>, offset: nat, text: seq<char>)
    requires SliceFrom(content, from, line) && SliceFrom(line, offset, text)
    ensures SliceFrom(content, from + offset, text)
  {
    forall i | 0 <= i < |text| ensures content[from + offset + i] == text[i] {
      assert line[offset..offset + |text|][i] == line[offset + i];
      assert content[from..from + |line|][offset + i] == content[from + (offset + i)];
    }
  }

  // -------------------------------------------------------------------
  // The excerpt in the text's own terms
  // -------------------------------------------------------------------

  /** Part of the line that starts at `start`: `text` stands `k` characters into it, with no line feed before its end. */
  ghost predicate WithinLine(content: seq<char>, start: nat, k: nat, text: seq<char>) {
    SliceFrom(content, start + k, text) && LF !in content[start..start + k + |text|]
  }

  ghost predicate FragmentFrom(content: seq<char>, start: nat, startColumn: nat, text: seq<char>) {
    exists k: nat :: WithinLine(content, start, k, text) && ByteLen(content[start..start + k]) == startColumn
  }

  ghost predicate TextFrom(content: seq<char>, start: nat, first: nat, last: nat, startColumn: nat, r: Excerpt) {
    match r
    case Unavailable => true
    case Lines(endLine, text, truncated) =>
      && SliceFrom(content, start, text)
      && first <= endLine <= last
      && (AfterLine(content, endLine, start + |text|) || (truncated && endLine == first && WithinLine(content, start, 0, text)))
      && (!truncated ==> endLine == last)
    case ColumnFragment(text) => FragmentFrom(content, start, startColumn, text)
  }

  /**
   An excerpt starts right after the line feed before the definition's first line, or for a fragment at
   the start column of that line. It ends right after its last line's line feed or at the end of the
   file, unless the first line alone is too long. Nothing is available of lines the file does not have.
  */
  ghost predicate InText(content: seq<char>, first: nat, last: nat, startColumn: nat, r: Excerpt)
    requires 0 < first
  {
    if LineCount(content) < first then r == Unavailable
    else exists start: nat :: AfterLineFeed(content, first - 1, start) && TextFrom(content, start, first, last, startColumn, r)
  }

  lemma LinesTogether(lines: seq<seq<char>>, i: nat, j: nat)
    requires i <= j <= |lines|
    ensures LineStart(lines, i) + |Concat(lines[i..j])| == LineStart(lines, j)
  {
    assert lines[..j] == lines[..i] + lines[i..j];
    ConcatParts(lines[..i], lines[i..j]);
  }

  lemma WholeLinesFrom(content: seq<char>, start: nat, stop: nat, first: nat, last: nat, end: nat, startColumn: nat,
                       text: seq<char>)
    requires first <= end <= last && stop == start + |text|
    requires SliceFrom(content, start, text) && AfterLine(content, end, stop)
    ensures TextFrom(content, start, first, last, startColumn, Lines(end, text, end < last))
  {
  }

  lemma LinesTextFrom(content: seq<char>, lines: seq<seq<char>>, first: nat, last: nat, end: nat, startColumn: nat)
    requires 0 < first <= end <= last && end <= |lines| && Concat(lines) == content
    requires AfterLine(content, end, LineStart(lines, end))
    ensures TextFrom(content, LineStart(lines, first - 1), first, last, startColumn,
                     Lines(end, Concat(lines[first - 1..end]), end < last))
  {
    LinesAreSlice(lines, first - 1, end);
    LinesTogether(lines, first - 1, end);
    WholeLinesFrom(content, LineStart(lines, first - 1), LineStart(lines, end), first, last, end, startColumn,
                   Concat(lines[first - 1..end]));
  }

  lemma NoFeedWithin(content: seq<char>, start: nat, line: seq<char>, k: nat, text: seq<char>)
    requires SliceFrom(content, start, line) && SliceFrom(line, k, text)
    requires LF !in line[..k + |text|]
    ensures WithinLine(content, start, k, text) && content[start..start + k] == line[..k]
  {
    SliceOfSlice(content, start, line, k, text);
    assert content[start..start + |line|][..k + |text|] == content[start..start + k + |text|];
    assert content[start..start + |line|][..k] == content[start..start + k];
  }

  lemma BeginningWithin(content: seq<char>, start: nat, line: seq<char>, maxBytes: nat, text: seq<char>)
    requires SliceFrom(content, start, line) && IsLine(line) && maxBytes < ByteLen(line) && Longest(line, maxBytes, text)
    ensures WithinLine(content, start, 0, text)
  {
    assert line[..|text|] == text;
    assert |text| == |line| ==> text == line;
    assert line[0..0 + |text|] == text;
    NoFeedWithin(content, start, line, 0, text);
  }

  lemma PartWithin(content: seq<char>, start: nat, line: seq<char>, a: nat, b: nat, startColumn: nat, text: seq<char>)
    requires SliceFrom(content, start, line) && IsLine(line) && a < b <= Trimmed(line)
    requires ByteLen(line[..a]) == startColumn && text <= line[a..b]
    ensures FragmentFrom(content, start, startColumn, text)
  {
    FragmentOfLine(line, a, b, text);
    assert forall i | 0 <= i < Trimmed(line) :: line[i] != LF;
    NoFeedWithin(content, start, line, a, text);
  }

  lemma LongLineTextFrom(content: seq<char>, start: nat, line: seq<char>, first: nat, last: nat,
                         startColumn: nat, endColumn: nat, maxBytes: nat, r: Excerpt)
    requires first <= last && SliceFrom(content, start, line) && IsLine(line) && maxBytes < ByteLen(line)
    requires LongLineExcerpt(line, first == last, first, startColumn, endColumn, maxBytes, r)
    ensures TextFrom(content, start, first, last, startColumn, r)
  {
    if r.Lines? {
      BeginningWithin(content, start, line, maxBytes, r.text);
    } else if r.ColumnFragment? {
      var part := DefinitionPart(line, first == last, startColumn, endColumn).value;
      PartMeans(line, first == last, startColumn, endColumn, part.0, part.1);
      PartWithin(content, start, line, part.0, part.1, startColumn, r.text);
    }
  }

  lemma FullestInText(content: seq<char>, first: nat, last: nat, startColumn: nat, endColumn: nat, maxBytes: nat, r: Excerpt)
    requires 0 < first <= last
    requires FullestExcerpt(SplitInclusive(content), first, last, startColumn, endColumn, maxBytes, r)
    ensures InText(content, first, last, startColumn, r)
  {
    var lines := SplitInclusive(content);
    LinesCounted(content);
    SplitKeepsText(content);
    if first <= |lines| {
      var start := LineStart(lines, first - 1);
      LinesStart(content, first - 1);
      if maxBytes < ByteLen(lines[first - 1]) {
        LongLineFitsNot(lines, first, last, maxBytes);
        LongLineTextFrom(content, start, lines[first - 1], first, last, startColumn, endColumn, maxBytes, r);
      } else {
        LinesEnd(content, r.endLine);
        LinesTextFrom(content, lines, first, last, r.endLine, startColumn);
        assert r == Lines(r.endLine, Concat(lines[first - 1..r.endLine]), r.endLine < last);
      }
    }
  }

  /** Lines are collected until the definition, the file or the budget ends. */
  method DefinitionSource(content: seq<char>, startLine: nat, endLine: nat, startColumn: nat, endColumn: nat, maxBytes: nat)
      returns (r: Excerpt)
    ensures var lines, first, last := SplitInclusive(content), First(startLine), Last(startLine, endLine);
            && FullestExcerpt(lines, first, last, startColumn, endColumn, maxBytes, r)
            && FaithfulExcerpt(content, lines, first, last, startColumn, maxBytes, r)
            && InText(content, first, last, startColumn, r)
  {
    var lines, first, last := SplitInclusive(content), First(startLine), Last(startLine, endLine);
    r := CollectLines(lines, first, last, startColumn, endColumn, maxBytes);
    FullestIsFaithful(lines, first, last, startColumn, endColumn, maxBytes, r);
    SplitKeepsText(content);
    FullestInText(content, first, last, startColumn, endColumn, maxBytes, r);
  }

  /** The lines from the first one of the definition up to `index`, none of them beyond its last, within the budget. */
  ghost predicate Collected(lines: seq<seq<char>>, first: nat, last: nat, maxBytes: nat, index: nat, text: seq<char>) {
    && 0 < first <= index <= last && index <= |lines|
    && text == Concat(lines[first - 1..index]) && ByteLen(text) <= maxBytes && ByteLen(lines[first - 1]) <= maxBytes
  }

  lemma CollectNext(lines: seq<seq<char>>, first: nat, last: nat, maxBytes: nat, index: nat, text: seq<char>)
    requires Collected(lines, first, last, maxBytes, index, text) && index < last && index < |lines|
    ensures ByteLen(text + lines[index]) == ByteLen(text) + ByteLen(lines[index]) == ByteLen(Concat(lines[first - 1..index + 1]))
    ensures ByteLen(text + lines[index]) <= maxBytes ==> Collected(lines, first, last, maxBytes, index + 1, text + lines[index])
  {
    LineAdded(lines, first - 1, index);
  }

  method CollectLines(lines: seq<seq<char>>, first: nat, last: nat, startColumn: nat, endColumn: nat, maxBytes: nat)
      returns (r: Excerpt)
    requires 0 < first <= last && forall k | 0 <= k < |lines| :: lines[k] != []
    ensures FullestExcerpt(lines, first, last, startColumn, endColumn, maxBytes, r)
  {
    var text: seq<char> := [];
    var returnedEnd, foundStart, limitReached := first - 1, false, false;
    for index := 0 to |lines|
      invariant !limitReached && (foundStart <==> index >= first)
      invariant index < first ==> text == [] && returnedEnd == first - 1
      invariant first <= index ==> returnedEnd == index && text != [] && Collected(lines, first, last, maxBytes, index, text)
    {
      var lineNumber := index + 1;
      if lineNumber < first { continue; }
      if lineNumber > last { break; }
      foundStart := true;
      var line := lines[index];
      if text == [] {
        OneLine(lines, index);
      } else {
        CollectNext(lines, first, last, maxBytes, index, text);
      }
      if ByteLen(text) + ByteLen(line) > maxBytes {
        limitReached := true;
        if text == [] {
          r := LongLine(line, first == last, first, startColumn, endColumn, maxBytes);
          return;
        }
        break;
      }
      text := text + line;
      returnedEnd := lineNumber;
    }
    if !foundStart || returnedEnd < first { return Unavailable; }
    r := Lines(returnedEnd, text, limitReached || returnedEnd < last);
  }
}
