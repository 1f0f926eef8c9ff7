/**
 Which symbol of a file a place belongs to: the enclosing scope of a reference, the owner of a
 type reference, the container of a method, and the containers in a qualified name.
*/
module Scopes {
  import opened Options
  import opened Ordering
  import opened NodeIds

  datatype Point = Point(line: nat, column: nat)

  predicate Before(a: Point, b: Point) {
    a.line < b.line || (a.line == b.line && a.column < b.column)
  }

  predicate NotAfter(a: Point, b: Point) {
    a == b || Before(a, b)
  }

  function Start(d: Definition): Point { Point(d.startLine, d.startColumn) }

  function End(d: Definition): Point { Point(d.endLine, d.endColumn) }

  predicate Holds(d: Definition, p: Point) {
    NotAfter(Start(d), p) && Before(p, End(d))
  }

  predicate Within(a: Definition, b: Definition) {
    NotAfter(Start(b), Start(a)) && NotAfter(End(a), End(b))
  }

  predicate Apart(a: Definition, b: Definition) {
    NotAfter(End(a), Start(b)) || NotAfter(End(b), Start(a))
  }

  function LineSpan(d: Definition): int { d.endLine - d.startLine }

  predicate SmallerSpan(a: Definition, b: Definition) {
    LineSpan(a) < LineSpan(b) ||
    (LineSpan(a) == LineSpan(b) && a.endColumn - a.startColumn < b.endColumn - b.startColumn)
  }

  // -------------------------------------------------------------------
  // The innermost scope at a point
  // -------------------------------------------------------------------

  const SCOPE_KINDS := {Function, Method, Class}

  const OWNER_KINDS := {Function, Method, Class, Struct, Interface, Trait, Enum, TypeAlias}

  predicate Eligible(d: Definition, kinds: set<Kind>, p: Point) {
    d.kind in kinds && Holds(d, p)
  }

  /** The first eligible symbol of least span: `filter` and `min_by_key`. */
  function Tightest(nodes: seq<Definition>, kinds: set<Kind>, p: Point): (best: Option<nat>)
    ensures best.None? <==> forall j | 0 <= j < |nodes| :: !Eligible(nodes[j], kinds, p)
    ensures best.Some? ==>
              && best.value < |nodes| && Eligible(nodes[best.value], kinds, p)
              && (forall j | 0 <= j < |nodes| && Eligible(nodes[j], kinds, p) :: !SmallerSpan(nodes[j], nodes[best.value]))
              && (forall j | 0 <= j < best.value && Eligible(nodes[j], kinds, p) :: SmallerSpan(nodes[best.value], nodes[j]))
  {
    if nodes == [] then None
    else
      var n := |nodes| - 1;
      var before := Tightest(nodes[..n], kinds, p);
      assert forall j | 0 <= j < n :: nodes[..n][j] == nodes[j];
      if Eligible(nodes[n], kinds, p) && (before.None? || SmallerSpan(nodes[n], nodes[before.value])) then Some(n) else before
  }

  function FindTypeReferenceOwner(nodes: seq<Definition>, p: Point): Option<nat> {
    Tightest(nodes, OWNER_KINDS, p)
  }

  method FindEnclosingNode(nodes: seq<Definition>, p: Point) returns (best: Option<nat>)
    ensures best == Tightest(nodes, SCOPE_KINDS, p)
  {
    best := None;
    for k := 0 to |nodes|
      invariant best == Tightest(nodes[..k], SCOPE_KINDS, p)
    {
      assert nodes[..k + 1][..k] == nodes[..k];
      if nodes[k].kind in SCOPE_KINDS && Holds(nodes[k], p) {
        if best.None? || SmallerSpan(nodes[k], nodes[best.value]) {
          best := Some(k);
        }
      }
    }
    assert nodes[..|nodes|] == nodes;
  }

  /** Spans grow with ranges, and equal spans leave no room for a proper one. */
  lemma WithinSpans(a: Definition, b: Definition)
    requires Within(a, b) && NotAfter(Start(a), End(a))
    ensures !SmallerSpan(b, a)
    ensures !SmallerSpan(a, b) ==> Start(a) == Start(b) && End(a) == End(b)
  {
  }

  /** Every eligible symbol at the point holds symbol k. */
  ghost predicate Innermost(nodes: seq<Definition>, kinds: set<Kind>, p: Point, k: nat) {
    && k < |nodes| && Eligible(nodes[k], kinds, p)
    && forall j | 0 <= j < |nodes| && Eligible(nodes[j], kinds, p) :: Within(nodes[k], nodes[j])
  }

  /** The symbol of least span is innermost exactly when some symbol is. */
  lemma TightestIsInnermost(nodes: seq<Definition>, kinds: set<Kind>, p: Point)
    requires Tightest(nodes, kinds, p).Some?
    ensures Innermost(nodes, kinds, p, Tightest(nodes, kinds, p).value) <==> exists m: nat :: Innermost(nodes, kinds, p, m)
  {
    var k := Tightest(nodes, kinds, p).value;
    if m: nat :| Innermost(nodes, kinds, p, m) {
      WithinSpans(nodes[m], nodes[k]);
    }
  }

  ghost predicate ProperlyNested(nodes: seq<Definition>, kinds: set<Kind>) {
    forall i, j | 0 <= i < |nodes| && 0 <= j < |nodes| && nodes[i].kind in kinds && nodes[j].kind in kinds ::
      Within(nodes[i], nodes[j]) || Within(nodes[j], nodes[i]) || Apart(nodes[i], nodes[j])
  }

  /** In properly nested source the chosen scope is innermost. */
  lemma NestedScopesHaveInnermost(nodes: seq<Definition>, kinds: set<Kind>, p: Point)
    requires ProperlyNested(nodes, kinds) && Tightest(nodes, kinds, p).Some?
    ensures Innermost(nodes, kinds, p, Tightest(nodes, kinds, p).value)
  {
    var k := Tightest(nodes, kinds, p).value;
    forall j | 0 <= j < |nodes| && Eligible(nodes[j], kinds, p) ensures Within(nodes[k], nodes[j]) {
      if Within(nodes[j], nodes[k]) {
        WithinSpans(nodes[j], nodes[k]);
      }
    }
  }

  // -------------------------------------------------------------------
  // Containers of members
  // -------------------------------------------------------------------

  const CONTAINER_KINDS := {Class, Interface, Struct, Trait, Enum}

  predicate Contains(c: Definition, member: Definition) {
    c.kind in CONTAINER_KINDS && Within(member, c)
  }

  /** The first container around a member whose start is latest. */
  function ContainerOf(nodes: seq<Definition>, member: Definition): (best: Option<nat>)
    ensures best.None? <==> forall j | 0 <= j < |nodes| :: !Contains(nodes[j], member)
    ensures best.Some? ==>
              && best.value < |nodes| && Contains(nodes[best.value], member)
              && (forall j | 0 <= j < |nodes| && Contains(nodes[j], member) :: NotAfter(Start(nodes[j]), Start(nodes[best.value])))
              && (forall j | 0 <= j < best.value && Contains(nodes[j], member) :: Start(nodes[j]) != Start(nodes[best.value]))
  {
    if nodes == [] then None
    else
      var n := |nodes| - 1;
      var before := ContainerOf(nodes[..n], member);
      assert forall j | 0 <= j < n :: nodes[..n][j] == nodes[j];
      if Contains(nodes[n], member) && (before.None? || Before(Start(nodes[before.value]), Start(nodes[n]))) then Some(n) else before
  }

  datatype Containment = Containment(container: nat, member: nat)

  method FindContainer(nodes: seq<Definition>, member: Definition) returns (best: Option<nat>)
    ensures best == ContainerOf(nodes, member)
  {
    best := None;
    for c := 0 to |nodes|
      invariant best == ContainerOf(nodes[..c], member)
    {
      assert nodes[..c + 1][..c] == nodes[..c];
      if nodes[c].kind in CONTAINER_KINDS
         && NotAfter(Start(nodes[c]), Start(member)) && NotAfter(End(member), End(nodes[c]))
         && (best.None? || Before(Start(nodes[best.value]), Start(nodes[c]))) {
        best := Some(c);
      }
    }
    assert nodes[..|nodes|] == nodes;
  }

  predicate IsContainment(nodes: seq<Definition>, e: Containment) {
    e.member < |nodes| && nodes[e.member].kind == Method && ContainerOf(nodes, nodes[e.member]) == Some(e.container)
  }

  ghost predicate InFileOrder(edges: seq<Containment>) {
    forall i, j | 0 <= i < j < |edges| :: edges[i].member < edges[j].member
  }

  /** Each contained method has its one edge, in file order, and nothing else has any. */
  method ExtractContainmentEdges(nodes: seq<Definition>) returns (edges: seq<Containment>)
    ensures forall e :: e in edges <==> IsContainment(nodes, e)
    ensures InFileOrder(edges)
  {
    edges := [];
    for m := 0 to |nodes|
      invariant forall e :: e in edges <==> IsContainment(nodes, e) && e.member < m
      invariant InFileOrder(edges)
    {
      if nodes[m].kind == Method {
        var best := FindContainer(nodes, nodes[m]);
        if best.Some? {
          assert forall i | 0 <= i < |edges| :: edges[i] in edges;
          edges := edges + [Containment(best.value, m)];
        }
      }
    }
  }

  ghost predicate InnermostContainer(nodes: seq<Definition>, member: Definition, k: nat) {
    && k < |nodes| && Contains(nodes[k], member)
    && forall j | 0 <= j < |nodes| && Contains(nodes[j], member) :: Within(nodes[k], nodes[j])
  }

  /** No container of the member starts later. */
  ghost predicate LatestStart(nodes: seq<Definition>, member: Definition, i: nat) {
    && i < |nodes| && Contains(nodes[i], member)
    && forall j | 0 <= j < |nodes| && Contains(nodes[j], member) :: NotAfter(Start(nodes[j]), Start(nodes[i]))
  }

  ghost predicate FirstLatest(nodes: seq<Definition>, member: Definition, i: nat) {
    LatestStart(nodes, member, i) && forall j: nat | j < i :: !LatestStart(nodes, member, j)
  }

  /** Of the containers that start last, the one listed first ends no later than the others. */
  ghost predicate FirstLatestEndsFirst(nodes: seq<Definition>, member: Definition) {
    forall i: nat, j: nat | FirstLatest(nodes, member, i) && LatestStart(nodes, member, j) ::
      NotAfter(End(nodes[i]), End(nodes[j]))
  }

  lemma ChosenIsFirstLatest(nodes: seq<Definition>, member: Definition, k: nat)
    ensures ContainerOf(nodes, member) == Some(k) <==> FirstLatest(nodes, member, k)
  {
    var best := ContainerOf(nodes, member);
    if best.Some? {
      assert LatestStart(nodes, member, best.value);
      forall j: nat | j < best.value ensures !LatestStart(nodes, member, j) {
        if LatestStart(nodes, member, j) {
          BothLatestStartTogether(nodes, member, j, best.value);
        }
      }
    }
  }

  lemma BothLatestStartTogether(nodes: seq<Definition>, member: Definition, i: nat, j: nat)
    requires LatestStart(nodes, member, i) && LatestStart(nodes, member, j)
    ensures Start(nodes[i]) == Start(nodes[j])
  {
  }

  lemma InnermostEndsFirst(nodes: seq<Definition>, member: Definition, k: nat)
    requires ProperlyNested(nodes, CONTAINER_KINDS) && Before(Start(member), End(member))
    requires LatestStart(nodes, member, k)
    ensures InnermostContainer(nodes, member, k) <==>
              forall j: nat | LatestStart(nodes, member, j) :: NotAfter(End(nodes[k]), End(nodes[j]))
  {
    if forall j: nat | LatestStart(nodes, member, j) :: NotAfter(End(nodes[k]), End(nodes[j])) {
      forall j | 0 <= j < |nodes| && Contains(nodes[j], member) ensures Within(nodes[k], nodes[j]) {
        if Start(nodes[j]) == Start(nodes[k]) {
          assert LatestStart(nodes, member, j);
        }
      }
    }
  }

  /**
   In properly nested source the chosen container lies inside all others exactly when, of the containers
   that start last, the one listed first ends no later than the others.
  */
  lemma ContainerIsInnermost(nodes: seq<Definition>, member: Definition)
    requires ProperlyNested(nodes, CONTAINER_KINDS) && Before(Start(member), End(member))
    requires ContainerOf(nodes, member).Some?
    ensures InnermostContainer(nodes, member, ContainerOf(nodes, member).value) <==> FirstLatestEndsFirst(nodes, member)
  {
    var k := ContainerOf(nodes, member).value;
    ChosenIsFirstLatest(nodes, member, k);
    InnermostEndsFirst(nodes, member, k);
    forall i: nat | FirstLatest(nodes, member, i) ensures i == k {
      ChosenIsFirstLatest(nodes, member, i);
    }
  }

  /** With pairwise distinct starts the chosen container is always the innermost one. */
  lemma DistinctStartsAreInnermost(nodes: seq<Definition>, member: Definition)
    requires ProperlyNested(nodes, CONTAINER_KINDS) && Before(Start(member), End(member))
    requires ContainerOf(nodes, member).Some?
    requires forall i, j | 0 <= i < j < |nodes| && Contains(nodes[i], member) && Contains(nodes[j], member) ::
               Start(nodes[i]) != Start(nodes[j])
    ensures InnermostContainer(nodes, member, ContainerOf(nodes, member).value)
  {
    forall i: nat, j: nat | FirstLatest(nodes, member, i) && LatestStart(nodes, member, j) ensures i == j {
      BothLatestStartTogether(nodes, member, i, j);
    }
    ContainerIsInnermost(nodes, member);
  }

  /** Two containers that start together, the outer one listed first: the outer one is chosen. */
  lemma SharedStartTakesOuter() returns (nodes: seq<Definition>, member: Definition)
    ensures ProperlyNested(nodes, CONTAINER_KINDS) && Before(Start(member), End(member))
    ensures ContainerOf(nodes, member).Some? && !InnermostContainer(nodes, member, ContainerOf(nodes, member).value)
  {
    var outer, inner := Definition(Class, "Outer", 1, 0, 9, 1, ""), Definition(Struct, "Inner", 1, 0, 5, 1, "");
    nodes, member := [outer, inner], Definition(Method, "run", 2, 2, 3, 3, "");
    assert nodes[..1] == [outer] && nodes[..1][..0] == [];
    assert Contains(nodes[1], member) && !Within(outer, inner);
    assert ContainerOf([outer], member) == Some(0);
  }

  // -------------------------------------------------------------------
  // Qualified names
  // -------------------------------------------------------------------

  /** The containers around a member, in file order. */
  function Around(nodes: seq<Definition>, member: Definition, n: nat): (r: seq<nat>)
    requires n <= |nodes|
    ensures forall k: nat :: k in r <==> k < n && Contains(nodes[k], member)
    ensures forall a, b | 0 <= a < b < |r| :: r[a] < r[b]
  {
    if n == 0 then []
    else
      var front := Around(nodes, member, n - 1);
      assert forall a | 0 <= a < |front| :: front[a] in front;
      if Contains(nodes[n - 1], member) then front + [n - 1] else front
  }

  function ByLines(nodes: seq<Definition>): nat -> Key {
    (k: nat) => if k < |nodes| then [Num(-LineSpan(nodes[k]))] else []
  }

  function ByIndex(): nat -> Key {
    (k: nat) => [Num(k)]
  }

  /** The chain of a qualified name: containers sorted by falling line span, ties in file order. */
  function ContainerChain(nodes: seq<Definition>, member: Definition): seq<nat> {
    Sort(ByLines(nodes), Around(nodes, member, |nodes|))
  }

  ghost predicate OutermostFirst(nodes: seq<Definition>, chain: seq<nat>) {
    forall a, b | 0 <= a < b < |chain| :: chain[a] < |nodes| && chain[b] < |nodes| && Within(nodes[chain[b]], nodes[chain[a]])
  }

  /** Containers of one line span are listed outer before inner. */
  ghost predicate TiesOutermostFirst(nodes: seq<Definition>, member: Definition) {
    forall i, j | 0 <= i < j < |nodes| && Contains(nodes[i], member) && Contains(nodes[j], member)
                  && LineSpan(nodes[i]) == LineSpan(nodes[j]) :: Within(nodes[j], nodes[i])
  }

  lemma ChainMembers(nodes: seq<Definition>, member: Definition)
    ensures forall k: nat :: k in ContainerChain(nodes, member) <==> k < |nodes| && Contains(nodes[k], member)
    ensures NoRepeats(ContainerChain(nodes, member))
  {
    var around, chain := Around(nodes, member, |nodes|), ContainerChain(nodes, member);
    forall k: nat ensures k in chain <==> k in around {
      assert k in chain <==> k in multiset(chain);
      assert k in around <==> k in multiset(around);
    }
    NoRepeatsDistinct(around);
    DistinctNoRepeats(around, chain);
  }

  predicate Precedes(nodes: seq<Definition>, i: nat, j: nat)
    requires i < |nodes| && j < |nodes|
  {
    LineSpan(nodes[i]) > LineSpan(nodes[j]) || (LineSpan(nodes[i]) == LineSpan(nodes[j]) && i < j)
  }

  lemma KeysPrecede(nodes: seq<Definition>, i: nat, j: nat)
    requires i < |nodes| && j < |nodes| && i != j
    requires || KeyLess(ByLines(nodes)(i), ByLines(nodes)(j))
             || (ByLines(nodes)(i) == ByLines(nodes)(j) && KeyLeq(ByIndex()(i), ByIndex()(j)))
    ensures Precedes(nodes, i, j)
  {
  }

  lemma AroundByIndex(nodes: seq<Definition>, member: Definition)
    ensures SortedBy(ByIndex(), Around(nodes, member, |nodes|))
  {
  }

  lemma ChainOrder(nodes: seq<Definition>, member: Definition, a: nat, b: nat)
    requires a < b < |ContainerChain(nodes, member)|
    ensures var chain := ContainerChain(nodes, member);
            chain[a] < |nodes| && chain[b] < |nodes| && Precedes(nodes, chain[a], chain[b])
  {
    var chain := ContainerChain(nodes, member);
    ChainMembers(nodes, member);
    assert chain[a] in chain && chain[b] in chain;
    AroundByIndex(nodes, member);
    SortStable(ByLines(nodes), ByIndex(), Around(nodes, member, |nodes|));
    KeysPrecede(nodes, chain[a], chain[b]);
  }

  /** In properly nested source the chain runs from the outermost container inwards exactly when ties of line span do in the file. */
  lemma ChainIsOutermostFirst(nodes: seq<Definition>, member: Definition)
    requires ProperlyNested(nodes, CONTAINER_KINDS) && Before(Start(member), End(member))
    ensures OutermostFirst(nodes, ContainerChain(nodes, member)) <==> TiesOutermostFirst(nodes, member)
  {
    if OutermostFirst(nodes, ContainerChain(nodes, member)) {
      ChainGivesTies(nodes, member);
    }
    if TiesOutermostFirst(nodes, member) {
      TiesGiveChain(nodes, member);
    }
  }

  lemma ChainGivesTies(nodes: seq<Definition>, member: Definition)
    requires OutermostFirst(nodes, ContainerChain(nodes, member))
    ensures TiesOutermostFirst(nodes, member)
  {
    forall i, j | 0 <= i < j < |nodes| && Contains(nodes[i], member) && Contains(nodes[j], member)
                  && LineSpan(nodes[i]) == LineSpan(nodes[j])
      ensures Within(nodes[j], nodes[i])
    {
      var a, b := TiePlaces(nodes, member, i, j);
    }
  }

  /** Containers of one line span keep their file order in the chain. */
  lemma TiePlaces(nodes: seq<Definition>, member: Definition, i: nat, j: nat) returns (a: nat, b: nat)
    requires i < j < |nodes| && Contains(nodes[i], member) && Contains(nodes[j], member)
    requires LineSpan(nodes[i]) == LineSpan(nodes[j])
    ensures var chain := ContainerChain(nodes, member); a < b < |chain| && chain[a] == i && chain[b] == j
  {
    var chain := ContainerChain(nodes, member);
    ChainMembers(nodes, member);
    assert i in chain && j in chain;
    a :| a < |chain| && chain[a] == i;
    b :| b < |chain| && chain[b] == j;
    if b < a {
      ChainOrder(nodes, member, b, a);
    }
  }

  lemma TiesGiveChain(nodes: seq<Definition>, member: Definition)
    requires ProperlyNested(nodes, CONTAINER_KINDS) && Before(Start(member), End(member))
    requires TiesOutermostFirst(nodes, member)
    ensures OutermostFirst(nodes, ContainerChain(nodes, member))
  {
    var chain := ContainerChain(nodes, member);
    ChainMembers(nodes, member);
    forall a, b | 0 <= a < b < |chain|
      ensures chain[a] < |nodes| && chain[b] < |nodes| && Within(nodes[chain[b]], nodes[chain[a]])
    {
      assert chain[a] in chain && chain[b] in chain;
      ChainOrder(nodes, member, a, b);
      NestedBySpan(nodes, member, chain[a], chain[b]);
    }
  }

  /** An inner container on the outer one's only line, listed before it, comes first in the chain. */
  lemma SharedLineChainsInnerFirst() returns (nodes: seq<Definition>, member: Definition)
    ensures ProperlyNested(nodes, CONTAINER_KINDS) && Before(Start(member), End(member))
    ensures !OutermostFirst(nodes, ContainerChain(nodes, member))
  {
    var inner, outer := Definition(Class, "Inner", 1, 12, 1, 38, ""), Definition(Class, "Outer", 1, 0, 1, 40, "");
    nodes, member := [inner, outer], Definition(Method, "run", 1, 22, 1, 30, "");
    assert Contains(nodes[0], member) && Contains(nodes[1], member) && !Within(nodes[1], nodes[0]);
    ChainIsOutermostFirst(nodes, member);
  }

  /** Of two nested containers of a member, the one with more lines holds the other. */
  lemma NestedBySpan(nodes: seq<Definition>, member: Definition, i: nat, j: nat)
    requires ProperlyNested(nodes, CONTAINER_KINDS) && Before(Start(member), End(member))
    requires i < |nodes| && j < |nodes| && Contains(nodes[i], member) && Contains(nodes[j], member)
    ensures LineSpan(nodes[i]) > LineSpan(nodes[j]) ==> Within(nodes[j], nodes[i])
  {
  }

  datatype Symbol = Symbol(definition: Definition, script: bool, qualifiedName: Option<string>)

  function Definitions(symbols: seq<Symbol>): (ds: seq<Definition>)
    ensures |ds| == |symbols| && forall k | 0 <= k < |symbols| :: ds[k] == symbols[k].definition
  {
    seq(|symbols|, k requires 0 <= k < |symbols| => symbols[k].definition)
  }

  function JoinDots(nodes: seq<Definition>, chain: seq<nat>, last: string): string {
    if chain == [] then last
    else (if chain[0] < |nodes| then nodes[chain[0]].name else "") + "." + JoinDots(nodes, chain[1..], last)
  }

  /** Methods and properties get a chained name, unless a script assignment already spelled one or nothing is around them. */
  function Qualified(nodes: seq<Definition>, s: Symbol): Symbol {
    var d := s.definition;
    if (d.kind != Method && d.kind != Property) || (s.script && s.qualifiedName.Some?) || ContainerChain(nodes, d) == [] then s
    else s.(qualifiedName := Some(JoinDots(nodes, ContainerChain(nodes, d), d.name)))
  }

  method Qualify(nodes: seq<Definition>, symbol: Symbol) returns (s: Symbol)
    ensures s == Qualified(nodes, symbol)
  {
    s := symbol;
    if (s.definition.kind == Method || s.definition.kind == Property) && !(s.script && s.qualifiedName.Some?) {
      var chain := ContainerChain(nodes, s.definition);
      if chain != [] {
        s := s.(qualifiedName := Some(JoinDots(nodes, chain, s.definition.name)));
      }
    }
  }

  method PopulateQualifiedNames(symbols: array<Symbol>)
    modifies symbols
    ensures forall k | 0 <= k < symbols.Length :: symbols[k] == Qualified(Definitions(old(symbols[..])), old(symbols[k]))
  {
    ghost var was := symbols[..];
    var nodes := Definitions(symbols[..]);
    for k := 0 to symbols.Length
      invariant symbols[k..] == was[k..]
      invariant forall j | 0 <= j < k :: symbols[j] == Qualified(nodes, was[j])
    {
      assert symbols[k] == symbols[k..][0] == was[k..][0];
      var s := Qualify(nodes, symbols[k]);
      symbols[k] := s;
      assert symbols[k + 1..] == was[k + 1..];
    }
  }
}
