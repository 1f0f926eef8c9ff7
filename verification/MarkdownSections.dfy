/**
 Markdown heading structure, found twice: section line ranges by scanning ahead for the next
 heading of no deeper level, and parents with a stack of levels.
*/
module MarkdownSections {
  import opened Options

  datatype Heading = Heading(level: nat, id: string, name: string, startLine: nat, endLine: nat, qualifiedName: Option<string>)

  datatype ContainsEdge = ContainsEdge(source: string, target: string, line: nat, targetName: string)

  /** Headings as they are extracted: one per line at most, in line order. */
  ghost predicate Extracted(hs: seq<Heading>, lineCount: nat) {
    && (forall i, j | 0 <= i < j < |hs| :: hs[i].startLine < hs[j].startLine)
    && (forall i | 0 <= i < |hs| :: 1 <= hs[i].startLine <= lineCount)
  }

  // -------------------------------------------------------------------
  // Section ranges
  // -------------------------------------------------------------------

  /** The first heading after i of a level no deeper than the given one, or the end of the list. */
  function Boundary(hs: seq<Heading>, from: nat, level: nat): (b: nat)
    requires from <= |hs|
    ensures from <= b <= |hs|
    ensures forall k | from <= k < b :: hs[k].level > level
    ensures b < |hs| ==> hs[b].level <= level
    decreases |hs| - from
  {
    if from == |hs| || hs[from].level <= level then from else Boundary(hs, from + 1, level)
  }

  function Max(a: nat, b: nat): nat { if a < b then b else a }

  function SectionEnd(hs: seq<Heading>, lineCount: nat, i: nat): nat
    requires i < |hs|
  {
    var b := Boundary(hs, i + 1, hs[i].level);
    var next := if b == |hs| then lineCount else if hs[b].startLine == 0 then 0 else hs[b].startLine - 1;
    Max(next, hs[i].startLine)
  }

  function WithRanges(hs: seq<Heading>, lineCount: nat): (r: seq<Heading>)
    ensures |r| == |hs|
  {
    seq(|hs|, i requires 0 <= i < |hs| => hs[i].(endLine := SectionEnd(hs, lineCount, i)))
  }

  method AssignSectionRanges(headings: array<Heading>, lineCount: nat)
    modifies headings
    ensures headings[..] == WithRanges(old(headings[..]), lineCount)
  {
    ghost var hs := headings[..];
    for index := 0 to headings.Length
      invariant ReplacedUpTo(headings, WithRanges(hs, lineCount), hs, index)
    {
      var boundary := FindBoundary(headings, index, hs);
      var next := if boundary == headings.Length then lineCount
                  else if headings[boundary].startLine == 0 then 0 else headings[boundary].startLine - 1;
      var ranged := headings[index].(endLine := Max(next, headings[index].startLine));
      ReplaceNext(headings, index, ranged, WithRanges(hs, lineCount), hs);
    }
  }

  method FindBoundary(headings: array<Heading>, index: nat, ghost hs: seq<Heading>) returns (boundary: nat)
    requires index < headings.Length == |hs| && forall k | index <= k < |hs| :: headings[k] == hs[k]
    ensures boundary == Boundary(hs, index + 1, hs[index].level)
  {
    boundary := index + 1;
    var level := headings[index].level;
    while boundary < headings.Length && headings[boundary].level > level
      invariant index < boundary <= headings.Length
      invariant Boundary(hs, boundary, level) == Boundary(hs, index + 1, level)
    {
      boundary := boundary + 1;
    }
  }

  // -------------------------------------------------------------------
  // Hierarchy
  // -------------------------------------------------------------------

  /** The nearest heading before i with a smaller level. */
  function Parent(hs: seq<Heading>, i: nat): (p: Option<nat>)
    requires i < |hs|
    ensures p.Some? ==> p.value < i && hs[p.value].level < hs[i].level
    ensures forall k | (if p.Some? then p.value + 1 else 0) <= k < i :: hs[k].level >= hs[i].level
  {
    Nearest(hs, i, hs[i].level)
  }

  function Nearest(hs: seq<Heading>, end: nat, level: nat): (p: Option<nat>)
    requires end <= |hs|
    ensures p.Some? ==> p.value < end && hs[p.value].level < level
    ensures forall k | (if p.Some? then p.value + 1 else 0) <= k < end :: hs[k].level >= level
  {
    if end == 0 then None else if hs[end - 1].level < level then Some(end - 1) else Nearest(hs, end - 1, level)
  }

  function QualifiedName(hs: seq<Heading>, i: nat): string
    requires i < |hs|
  {
    match Parent(hs, i)
    case None => hs[i].name
    case Some(p) => QualifiedName(hs, p) + " > " + hs[i].name
  }

  function WithNames(hs: seq<Heading>): (r: seq<Heading>)
    ensures |r| == |hs|
  {
    seq(|hs|, i requires 0 <= i < |hs| => hs[i].(qualifiedName := Some(QualifiedName(hs, i))))
  }

  /** One edge from every parent to its child, in document order. */
  function HierarchyEdges(hs: seq<Heading>, n: nat): seq<ContainsEdge>
    requires n <= |hs|
  {
    if n == 0 then []
    else
      var edge := HierarchyEdge(hs, n - 1);
      HierarchyEdges(hs, n - 1) + if edge.Some? then [edge.value] else []
  }

  function HierarchyEdge(hs: seq<Heading>, i: nat): Option<ContainsEdge>
    requires i < |hs|
  {
    match Parent(hs, i)
    case None => None
    case Some(p) => Some(EdgeBetween(hs[p], hs[i]))
  }

  lemma NamesKeepLevels(hs: seq<Heading>)
    ensures forall k | 0 <= k < |hs| :: WithNames(hs)[k].level == hs[k].level
  {
  }

  lemma NameStep(hs: seq<Heading>, i: nat)
    requires i < |hs|
    ensures var named := WithNames(hs);
            match Parent(hs, i)
            case None => named[i] == hs[i].(qualifiedName := Some(hs[i].name))
            case Some(p) =>
              && named[p].qualifiedName.Some? && EdgeBetween(named[p], hs[i]) == EdgeBetween(hs[p], hs[i])
              && named[i] == hs[i].(qualifiedName := Some(named[p].qualifiedName.value + " > " + hs[i].name))
  {
  }

  function EdgeBetween(parent: Heading, child: Heading): ContainsEdge {
    ContainsEdge(parent.id, child.id, child.startLine, child.name)
  }

  /** An edge from a heading's parent to the heading, at the heading's line and under its name. */
  predicate FromParent(hs: seq<Heading>, i: nat, e: ContainsEdge)
    requires i < |hs|
  {
    && Parent(hs, i).Some? && e.source == hs[Parent(hs, i).value].id
    && e.target == hs[i].id && e.line == hs[i].startLine && e.targetName == hs[i].name
  }

  /** The headings with a parent, in document order, are where the edges lead, one each. */
  ghost predicate LeadTo(hs: seq<Heading>, n: nat, edges: seq<ContainsEdge>, children: seq<nat>)
    requires n <= |hs|
  {
    && ChildrenBelow(hs, n, children)
    && |children| == |edges| && forall a | 0 <= a < |edges| :: children[a] < n && FromParent(hs, children[a], edges[a])
  }

  ghost predicate ChildrenBelow(hs: seq<Heading>, n: nat, children: seq<nat>)
    requires n <= |hs|
  {
    Ascending(children) && forall i: nat :: i in children <==> i < n && Parent(hs, i).Some?
  }

  lemma {:induction false} EdgesLeadToChildren(hs: seq<Heading>, n: nat) returns (children: seq<nat>)
    requires n <= |hs|
    ensures LeadTo(hs, n, HierarchyEdges(hs, n), children)
  {
    if n == 0 {
      children := [];
    } else {
      var before := EdgesLeadToChildren(hs, n - 1);
      children := LeadOn(hs, n - 1, HierarchyEdges(hs, n - 1), before, HierarchyEdge(hs, n - 1));
    }
  }

  lemma LeadOn(hs: seq<Heading>, n: nat, edges: seq<ContainsEdge>, before: seq<nat>, edge: Option<ContainsEdge>)
      returns (children: seq<nat>)
    requires n < |hs| && LeadTo(hs, n, edges, before) && edge == HierarchyEdge(hs, n)
    ensures LeadTo(hs, n + 1, edges + if edge.Some? then [edge.value] else [], children)
  {
    if edge.Some? {
      LeadToNext(hs, n, edges, before);
      children := before + [n];
    } else {
      LeadToSame(hs, n, edges, before);
      assert edges + [] == edges;
      children := before;
    }
  }

  lemma LeadToSame(hs: seq<Heading>, n: nat, edges: seq<ContainsEdge>, children: seq<nat>)
    requires n < |hs| && LeadTo(hs, n, edges, children) && Parent(hs, n).None?
    ensures LeadTo(hs, n + 1, edges, children)
  {
  }

  lemma LeadToNext(hs: seq<Heading>, n: nat, edges: seq<ContainsEdge>, children: seq<nat>)
    requires n < |hs| && LeadTo(hs, n, edges, children) && Parent(hs, n).Some?
    ensures LeadTo(hs, n + 1, edges + [HierarchyEdge(hs, n).value], children + [n])
  {
    ChildAdded(hs, n, children);
    assert FromParent(hs, n, HierarchyEdge(hs, n).value);
  }

  lemma ChildAdded(hs: seq<Heading>, n: nat, children: seq<nat>)
    requires n < |hs| && ChildrenBelow(hs, n, children) && Parent(hs, n).Some?
    ensures ChildrenBelow(hs, n + 1, children + [n])
  {
    assert forall a | 0 <= a < |children| :: children[a] in children;
  }

  /** Heading j is still open before position i: nothing since has come back to its level. */
  ghost predicate Live(hs: seq<Heading>, j: nat, i: nat)
    requires i <= |hs|
  {
    j < i && forall k | j < k < i :: hs[k].level > hs[j].level
  }

  ghost predicate Ascending(stack: seq<nat>) {
    forall a, b | 0 <= a < b < |stack| :: stack[a] < stack[b]
  }

  /** The stack holds exactly the open headings. */
  ghost predicate OpenStack(hs: seq<Heading>, stack: seq<nat>, i: nat)
    requires i <= |hs|
  {
    Ascending(stack) && forall j: nat :: j in stack <==> Live(hs, j, i)
  }

  /** The stack holds open headings, and those taken off are no shallower than heading i. */
  ghost predicate PoppedFor(hs: seq<Heading>, stack: seq<nat>, i: nat)
    requires i < |hs|
  {
    && Ascending(stack)
    && (forall j: nat | j in stack :: Live(hs, j, i))
    && (forall j: nat | Live(hs, j, i) && j !in stack :: hs[j].level >= hs[i].level)
  }

  lemma PopKeeps(hs: seq<Heading>, stack: seq<nat>, i: nat)
    requires i < |hs| && PoppedFor(hs, stack, i) && stack != []
    requires stack[|stack| - 1] < |hs| && hs[stack[|stack| - 1]].level >= hs[i].level
    ensures PoppedFor(hs, stack[..|stack| - 1], i)
  {
  }

  /** When the top of the stack is shallower than heading i, or nothing is left, the top is the parent. */
  lemma TopIsParent(hs: seq<Heading>, stack: seq<nat>, i: nat)
    requires i < |hs| && PoppedFor(hs, stack, i)
    requires stack != [] ==> stack[|stack| - 1] < |hs| && hs[stack[|stack| - 1]].level < hs[i].level
    ensures Parent(hs, i) == if stack == [] then None else Some(stack[|stack| - 1])
  {
  }

  lemma PushOpens(hs: seq<Heading>, stack: seq<nat>, i: nat)
    requires i < |hs| && PoppedFor(hs, stack, i)
    requires stack != [] ==> stack[|stack| - 1] < |hs| && hs[stack[|stack| - 1]].level < hs[i].level
    ensures OpenStack(hs, stack + [i], i + 1)
  {
    forall a | 0 <= a < |stack| ensures stack[a] < i && hs[stack[a]].level < hs[i].level {
      var top := stack[|stack| - 1];
      assert stack[a] in stack && Live(hs, stack[a], i) && top in stack && Live(hs, top, i);
    }
    forall j: nat ensures j in stack + [i] <==> Live(hs, j, i + 1) {
      if Live(hs, j, i + 1) && j != i {
        assert Live(hs, j, i);
      }
    }
  }

  ghost predicate NamedUpTo(headings: array<Heading>, hs: seq<Heading>, n: nat)
    reads headings
    requires n <= headings.Length == |hs|
  {
    ReplacedUpTo(headings, WithNames(hs), hs, n)
  }

  ghost predicate ReplacedUpTo(headings: array<Heading>, after: seq<Heading>, before: seq<Heading>, n: nat)
    reads headings
    requires n <= headings.Length == |before| == |after|
  {
    && (forall k | 0 <= k < n :: headings[k] == after[k])
    && (forall k | n <= k < |before| :: headings[k] == before[k])
  }

  method ReplaceNext(headings: array<Heading>, index: nat, heading: Heading, ghost after: seq<Heading>, ghost before: seq<Heading>)
    requires index < headings.Length == |before| == |after|
    requires ReplacedUpTo(headings, after, before, index) && heading == after[index]
    modifies headings
    ensures ReplacedUpTo(headings, after, before, index + 1)
  {
    headings[index] := heading;
  }

  /** Take the headings off the stack that are no shallower than the next one, note what is left on top, push the next one. */
  method NextOnStack(headings: array<Heading>, open: seq<nat>, index: nat, ghost hs: seq<Heading>)
      returns (parent: Option<nat>, stack: seq<nat>)
    requires index < headings.Length == |hs| && OpenStack(hs, open, index) && NamedUpTo(headings, hs, index)
    ensures parent == Parent(hs, index)
    ensures OpenStack(hs, stack, index + 1)
  {
    stack := open;
    NamesKeepLevels(hs);
    assert forall k | 0 <= k < |hs| :: headings[k].level == hs[k].level;
    forall a | 0 <= a < |stack| ensures stack[a] < index {
      assert stack[a] in stack;
    }
    while stack != [] && headings[stack[|stack| - 1]].level >= headings[index].level
      invariant PoppedFor(hs, stack, index)
      invariant forall a | 0 <= a < |stack| :: stack[a] < index
    {
      PopKeeps(hs, stack, index);
      stack := stack[..|stack| - 1];
    }
    TopIsParent(hs, stack, index);
    PushOpens(hs, stack, index);
    parent := if stack == [] then None else Some(stack[|stack| - 1]);
    stack := stack + [index];
  }

  /** The name of a heading after its parent, if it has one, and the edge from the parent. */
  method NameAfter(headings: array<Heading>, index: nat, parent: Option<nat>, ghost hs: seq<Heading>)
      returns (child: Heading, edge: Option<ContainsEdge>)
    requires index < headings.Length == |hs| && NamedUpTo(headings, hs, index) && parent == Parent(hs, index)
    ensures child == WithNames(hs)[index] && edge == HierarchyEdge(hs, index)
  {
    NameStep(hs, index);
    child, edge := headings[index], None;
    if parent.Some? {
      var above := headings[parent.value];
      var parentPath := if above.qualifiedName.Some? then above.qualifiedName.value else above.name;
      edge := Some(EdgeBetween(above, child));
      child := child.(qualifiedName := Some(parentPath + " > " + child.name));
    } else {
      child := child.(qualifiedName := Some(child.name));
    }
  }

  method NameHeading(headings: array<Heading>, index: nat, parent: Option<nat>, before: seq<ContainsEdge>, ghost hs: seq<Heading>)
      returns (edges: seq<ContainsEdge>)
    requires index < headings.Length == |hs| && NamedUpTo(headings, hs, index)
    requires parent == Parent(hs, index) && before == HierarchyEdges(hs, index)
    modifies headings
    ensures NamedUpTo(headings, hs, index + 1)
    ensures edges == HierarchyEdges(hs, index + 1)
  {
    var child, edge := NameAfter(headings, index, parent, hs);
    edges := if edge.Some? then before + [edge.value] else before;
    ReplaceNext(headings, index, child, WithNames(hs), hs);
  }

  ghost predicate Passed(headings: array<Heading>, hs: seq<Heading>, n: nat, stack: seq<nat>, edges: seq<ContainsEdge>)
    reads headings
  {
    n <= headings.Length == |hs| && NamedUpTo(headings, hs, n) && edges == HierarchyEdges(hs, n) && OpenStack(hs, stack, n)
  }

  lemma PassBegins(headings: array<Heading>, hs: seq<Heading>)
    requires hs == headings[..]
    ensures Passed(headings, hs, 0, [], [])
  {
  }

  lemma PassEnds(headings: array<Heading>, hs: seq<Heading>, stack: seq<nat>, edges: seq<ContainsEdge>)
    requires Passed(headings, hs, |hs|, stack, edges)
    ensures headings[..] == WithNames(hs) && edges == HierarchyEdges(hs, |hs|)
  {
  }

  method PassHeading(headings: array<Heading>, index: nat, open: seq<nat>, before: seq<ContainsEdge>, ghost hs: seq<Heading>)
      returns (stack: seq<nat>, edges: seq<ContainsEdge>)
    requires Passed(headings, hs, index, open, before) && index < headings.Length
    modifies headings
    ensures Passed(headings, hs, index + 1, stack, edges)
  {
    var parent;
    parent, stack := NextOnStack(headings, open, index, hs);
    edges := NameHeading(headings, index, parent, before, hs);
  }

  /** The stack pass computes parents, qualified names and edges. */
  method AssignHeadingHierarchy(headings: array<Heading>) returns (edges: seq<ContainsEdge>)
    modifies headings
    ensures headings[..] == WithNames(old(headings[..]))
    ensures edges == HierarchyEdges(old(headings[..]), headings.Length)
  {
    edges := [];
    var stack: seq<nat> := [];
    ghost var hs := headings[..];
    PassBegins(headings, hs);
    for index := 0 to headings.Length
      invariant Passed(headings, hs, index, stack, edges)
    {
      stack, edges := PassHeading(headings, index, stack, edges, hs);
    }
    PassEnds(headings, hs, stack, edges);
  }

  // -------------------------------------------------------------------
  // The two passes agree
  // -------------------------------------------------------------------

  /** Section j holds section i: by line ranges alone. */
  ghost predicate Encloses(hs: seq<Heading>, lineCount: nat, j: nat, i: nat)
    requires i < |hs| && j < |hs|
  {
    j != i && hs[j].startLine <= hs[i].startLine && SectionEnd(hs, lineCount, i) <= SectionEnd(hs, lineCount, j)
  }

  lemma EnclosesIsLive(hs: seq<Heading>, lineCount: nat, j: nat, i: nat)
    requires Extracted(hs, lineCount) && i < |hs| && j < |hs|
    ensures Encloses(hs, lineCount, j, i) <==> Live(hs, j, i) && hs[j].level < hs[i].level
    ensures j < i && !Encloses(hs, lineCount, j, i) ==> SectionEnd(hs, lineCount, j) < hs[i].startLine
  {
  }

  /** Any two sections are disjoint or one holds the other. */
  lemma SectionsAreLaminar(hs: seq<Heading>, lineCount: nat, i: nat, j: nat)
    requires Extracted(hs, lineCount) && i < j < |hs|
    ensures SectionEnd(hs, lineCount, i) < hs[j].startLine || Encloses(hs, lineCount, i, j)
    ensures hs[i].startLine <= SectionEnd(hs, lineCount, i) <= lineCount
  {
    EnclosesIsLive(hs, lineCount, i, j);
  }

  /** A line from a heading on is in its section exactly when no heading in between, or on it, is as shallow. */
  lemma SectionCovers(hs: seq<Heading>, lineCount: nat, i: nat, line: nat)
    requires Extracted(hs, lineCount) && i < |hs| && hs[i].startLine <= line <= lineCount
    ensures line <= SectionEnd(hs, lineCount, i) <==>
              forall k | i < k < |hs| && hs[k].startLine <= line :: hs[k].level > hs[i].level
  {
    var b := Boundary(hs, i + 1, hs[i].level);
    if b < |hs| {
      assert hs[i].startLine < hs[b].startLine;
    }
  }

  /** The parent found by the stack is the tightest section around a heading; without one the heading is in no section. */
  lemma ParentIsTightestSection(hs: seq<Heading>, lineCount: nat, i: nat)
    requires Extracted(hs, lineCount) && i < |hs|
    ensures match Parent(hs, i)
            case None => forall j | 0 <= j < |hs| :: !Encloses(hs, lineCount, j, i)
            case Some(p) =>
              && Encloses(hs, lineCount, p, i)
              && forall j | 0 <= j < |hs| && j != p && Encloses(hs, lineCount, j, i) :: Encloses(hs, lineCount, j, p)
  {
    var p := Parent(hs, i);
    if p.Some? {
      EnclosesIsLive(hs, lineCount, p.value, i);
    }
    forall j | 0 <= j < |hs| && Encloses(hs, lineCount, j, i)
      ensures p.Some? && (j == p.value || Encloses(hs, lineCount, j, p.value))
    {
      EnclosesIsLive(hs, lineCount, j, i);
      if p.Some? && j != p.value {
        EnclosesIsLive(hs, lineCount, j, p.value);
      }
    }
  }

  /** All sections around heading i, outermost first. */
  ghost function EnclosingBelow(hs: seq<Heading>, lineCount: nat, i: nat, n: nat): seq<nat>
    requires i < |hs| && n <= |hs|
  {
    if n == 0 then []
    else EnclosingBelow(hs, lineCount, i, n - 1) + if Encloses(hs, lineCount, n - 1, i) then [n - 1] else []
  }

  ghost function JoinNames(hs: seq<Heading>, path: seq<nat>): string
    requires forall a | 0 <= a < |path| :: path[a] < |hs|
  {
    if path == [] then ""
    else if |path| == 1 then hs[path[0]].name
    else JoinNames(hs, path[..|path| - 1]) + " > " + hs[path[|path| - 1]].name
  }

  lemma {:induction false} EnclosingMembers(hs: seq<Heading>, lineCount: nat, i: nat, n: nat)
    requires i < |hs| && n <= |hs|
    ensures forall j: nat :: j in EnclosingBelow(hs, lineCount, i, n) <==> j < n && Encloses(hs, lineCount, j, i)
  {
    if n == 0 {
    } else {
      EnclosingMembers(hs, lineCount, i, n - 1);
    }
  }

  lemma {:induction false} SameBelow(hs: seq<Heading>, lineCount: nat, i: nat, p: nat, n: nat)
    requires i < |hs| && p < |hs| && n <= |hs|
    requires forall j | 0 <= j < n :: Encloses(hs, lineCount, j, i) <==> Encloses(hs, lineCount, j, p)
    ensures EnclosingBelow(hs, lineCount, i, n) == EnclosingBelow(hs, lineCount, p, n)
  {
    if n == 0 {
    } else {
      SameBelow(hs, lineCount, i, p, n - 1);
    }
  }

  lemma {:induction false} NoneFrom(hs: seq<Heading>, lineCount: nat, i: nat, m: nat, n: nat)
    requires i < |hs| && m <= n <= |hs|
    requires forall j | m <= j < n :: !Encloses(hs, lineCount, j, i)
    ensures EnclosingBelow(hs, lineCount, i, n) == EnclosingBelow(hs, lineCount, i, m)
    decreases n
  {
    if m == n {
    } else {
      NoneFrom(hs, lineCount, i, m, n - 1);
    }
  }

  lemma EnclosesOfParent(hs: seq<Heading>, lineCount: nat, i: nat, p: nat, j: nat)
    requires Extracted(hs, lineCount) && i < |hs| && j < |hs| && Parent(hs, i) == Some(p)
    ensures Encloses(hs, lineCount, j, i) <==> j == p || Encloses(hs, lineCount, j, p)
    ensures Encloses(hs, lineCount, j, p) ==> j < p
  {
    ParentIsTightestSection(hs, lineCount, i);
    EnclosesIsLive(hs, lineCount, j, i);
    EnclosesIsLive(hs, lineCount, j, p);
  }

  lemma NoneBeyondParent(hs: seq<Heading>, lineCount: nat, i: nat, p: nat)
    requires Extracted(hs, lineCount) && i < |hs| && Parent(hs, i) == Some(p)
    ensures EnclosingBelow(hs, lineCount, i, |hs|) == EnclosingBelow(hs, lineCount, i, p) + [p]
  {
    forall j | p + 1 <= j < |hs| ensures !Encloses(hs, lineCount, j, i) {
      EnclosesOfParent(hs, lineCount, i, p, j);
    }
    NoneFrom(hs, lineCount, i, p + 1, |hs|);
    EnclosesOfParent(hs, lineCount, i, p, p);
  }

  lemma ParentBelowItself(hs: seq<Heading>, lineCount: nat, i: nat, p: nat)
    requires Extracted(hs, lineCount) && i < |hs| && Parent(hs, i) == Some(p)
    ensures EnclosingBelow(hs, lineCount, p, |hs|) == EnclosingBelow(hs, lineCount, p, p)
  {
    forall j | p <= j < |hs| ensures !Encloses(hs, lineCount, j, p) {
      EnclosesOfParent(hs, lineCount, i, p, j);
    }
    NoneFrom(hs, lineCount, p, p, |hs|);
  }

  lemma SameBelowParent(hs: seq<Heading>, lineCount: nat, i: nat, p: nat)
    requires Extracted(hs, lineCount) && i < |hs| && Parent(hs, i) == Some(p)
    ensures EnclosingBelow(hs, lineCount, i, p) == EnclosingBelow(hs, lineCount, p, p)
  {
    forall j | 0 <= j < p ensures Encloses(hs, lineCount, j, i) <==> Encloses(hs, lineCount, j, p) {
      EnclosesOfParent(hs, lineCount, i, p, j);
    }
    SameBelow(hs, lineCount, i, p, p);
  }

  /** The sections around a heading are those around its parent, and then the parent. */
  lemma EnclosingOfParent(hs: seq<Heading>, lineCount: nat, i: nat, p: nat)
    requires Extracted(hs, lineCount) && i < |hs| && Parent(hs, i) == Some(p)
    ensures EnclosingBelow(hs, lineCount, i, |hs|) == EnclosingBelow(hs, lineCount, p, |hs|) + [p]
  {
    NoneBeyondParent(hs, lineCount, i, p);
    ParentBelowItself(hs, lineCount, i, p);
    SameBelowParent(hs, lineCount, i, p);
  }

  /** A qualified name joins the names of all enclosing sections, outermost first, and the heading's own. */
  lemma {:induction false} QualifiedNameJoinsEnclosing(hs: seq<Heading>, lineCount: nat, i: nat)
    requires Extracted(hs, lineCount) && i < |hs|
    ensures forall a | 0 <= a < |EnclosingBelow(hs, lineCount, i, |hs|)| :: EnclosingBelow(hs, lineCount, i, |hs|)[a] < |hs|
    ensures QualifiedName(hs, i) == JoinNames(hs, EnclosingBelow(hs, lineCount, i, |hs|) + [i])
  {
    EnclosingMembers(hs, lineCount, i, |hs|);
    var around := EnclosingBelow(hs, lineCount, i, |hs|);
    assert forall a | 0 <= a < |around| :: around[a] in around;
    match Parent(hs, i) {
      case None =>
        ParentIsTightestSection(hs, lineCount, i);
        NoneFrom(hs, lineCount, i, 0, |hs|);
      case Some(p) =>
        EnclosingOfParent(hs, lineCount, i, p);
        QualifiedNameJoinsEnclosing(hs, lineCount, p);
        assert (around + [i])[..|around|] == EnclosingBelow(hs, lineCount, p, |hs|) + [p];
    }
  }
}
