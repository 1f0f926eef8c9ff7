/**
 Why the shortest-path theorem asks for full drains: a graph on which the search, near its
 visit limit, drains level 1 in two parts, meets a symbol of level 2 in the second part, and
 returns a path of four symbols where three would do.
*/
module PartialDrain {
  import opened Ordering
  import opened CallPath

  const CHILDREN := 3000
  const FIRST := 100      // the first child, which calls the detour
  const SPLIT := 2099     // the first child that the second drain leaves out, which calls the target
  const DETOUR := 50
  const TARGET := 60

  function Id(n: nat): string
    requires n < 0xD800
  {
    [n as char]
  }

  function Call(a: nat, b: nat, row: nat): Edge
    requires a < 0xD800 && b < 0xD800
  {
    Edge(Id(a), Id(b), "calls", "f", 1, row, false)
  }

  /** The stored rows: calls from the source to every child, then the detour and the short way. */
  function Row(k: nat): Edge {
    if k < CHILDREN then Call(1, FIRST + k, k)
    else if k == CHILDREN then Call(FIRST, DETOUR, k)
    else if k == CHILDREN + 1 then Call(DETOUR, TARGET, k)
    else Call(SPLIT, TARGET, CHILDREN + 2)
  }

  ghost function Crowded(): Graph {
    Graph(set n: nat | n < 4000 :: Id(n), seq(CHILDREN + 3, k requires 0 <= k => Row(k)))
  }

  lemma CallOrdered(a: nat, b: nat, r: nat, c: nat, d: nat, q: nat)
    requires a < 0xD800 && b < 0xD800 && c < 0xD800 && d < 0xD800
    requires a < c || (a == c && b < d)
    ensures KeyLeq(EdgeOrder(Call(a, b, r)), EdgeOrder(Call(c, d, q)))
  {
    var x, y := EdgeOrder(Call(a, b, r)), EdgeOrder(Call(c, d, q));
    assert TextLess(Id(a), Id(c)) || (Id(a) == Id(c) && TextLess(Id(b), Id(d)));
    assert x[1..][0] == x[1] && y[1..][0] == y[1];
    assert KeyLess(x, y);
    KeyTrichotomy(x, y);
  }

  /** With distinct, distinguishable rows the edge query of a drain has exactly one possible answer. */
  lemma OutgoingIs(g: Graph, frontier: seq<string>, expected: seq<Edge>)
    requires frontier != [] && Distinct(g.edges) && Distinguishes(EdgeOrder, g.edges)
    requires SortedBy(EdgeOrder, expected) && NoRepeats(expected)
    requires forall e :: e in expected <==> Confirmed(g, e) && e.source in frontier
    ensures ConfirmedOutgoing(g, frontier) == expected
  {
    var joined := (e: Edge) => e.kind == "calls" && e.source in frontier && e.source in g.nodes && e.target in g.nodes;
    var selected := Filter(joined, g.edges);
    var ordered := Sort(EdgeOrder, selected);
    var certain := (e: Edge) => !e.heuristic;
    var answer := Filter(certain, ordered);
    assert answer == ConfirmedOutgoing(g, frontier);
    SortSorted(EdgeOrder, selected);
    FilterSorted(EdgeOrder, certain, ordered);
    forall e | e in answer ensures multiset(answer)[e] == 1 {
      FilterCount(certain, ordered, e);
      FilterCount(joined, g.edges, e);
    }
    NoRepeatsDistinct(expected);
    var content := set e | e in expected;
    ListingUnique(EdgeOrder, answer, expected, content);
  }

  function TargetList(edges: seq<Edge>): seq<string> {
    seq(|edges|, i requires 0 <= i < |edges| => edges[i].target)
  }

  /** Edges to new symbols other than the target, within the limit, are all absorbed and their targets queued in order. */
  lemma {:induction false} AbsorbFresh(s: Search, edges: seq<Edge>, to: string)
    requires NoRepeats(TargetList(edges)) && |s.visited| + |edges| <= PATH_SEARCH_VISIT_LIMIT
    requires forall i | 0 <= i < |edges| :: edges[i].target !in s.visited && edges[i].target != to
    ensures var (next, found) := Absorb(s, edges, to);
            && !found
            && next.queue == s.queue + TargetList(edges)
            && |next.visited| == |s.visited| + |edges|
    decreases |edges|
  {
    var all := TargetList(edges);
    if edges == [] {
      assert s.queue + all == s.queue;
    } else {
      var e := edges[0];
      var mid := Visit(s, e).(queue := s.queue + [e.target]);
      assert all[1..] == TargetList(edges[1..]);
      forall i | 0 <= i < |edges[1..]| ensures edges[1..][i].target !in mid.visited && edges[1..][i].target != to {
        assert all[i + 1] == edges[i + 1].target && all[0] == e.target;
      }
      AbsorbFresh(mid, edges[1..], to);
      assert s.queue + all == mid.queue + TargetList(edges[1..]);
    }
  }

  lemma CrowdedRows()
    ensures Distinct(Crowded().edges) && Distinguishes(EdgeOrder, Crowded().edges)
    ensures forall e :: Confirmed(Crowded(), e) <==> exists k: nat | k < CHILDREN + 3 :: e == Row(k)
  {
    var g := Crowded();
    forall k: nat | k < CHILDREN + 3 ensures g.edges[k] == Row(k) && Row(k).rowId == k && Confirmed(g, Row(k)) {
      assert g.edges[k] in g.edges;
    }
    NoRepeatsDistinct(g.edges);
    forall a, b | a in g.edges && b in g.edges && EdgeOrder(a) == EdgeOrder(b) ensures a == b {
      assert EdgeOrder(a)[4] == EdgeOrder(b)[4];
    }
  }

  // The three drains of the run.

  function Fan(): (fan: seq<Edge>)
    ensures |fan| == CHILDREN && forall k | 0 <= k < CHILDREN :: fan[k] == Row(k)
  {
    seq(CHILDREN, k requires 0 <= k => Row(k))
  }

  lemma FanOutgoing()
    ensures ConfirmedOutgoing(Crowded(), [Id(1)]) == Fan()
  {
    var g, fan := Crowded(), Fan();
    CrowdedRows();
    forall i, j | 0 <= i < j < |fan| ensures KeyLeq(EdgeOrder(fan[i]), EdgeOrder(fan[j])) {
      CallOrdered(1, FIRST + i, i, 1, FIRST + j, j);
    }
    forall e ensures e in fan <==> Confirmed(g, e) && e.source in [Id(1)] {
      if Confirmed(g, e) && e.source == Id(1) {
        var k: nat :| k < CHILDREN + 3 && e == Row(k);
        assert fan[k] == e;
      }
    }
    OutgoingIs(g, [Id(1)], fan);
  }

  lemma FanTargets()
    ensures var list := TargetList(Fan());
            NoRepeats(list) && |list| == CHILDREN && forall i | 0 <= i < CHILDREN :: list[i] == Id(FIRST + i)
    ensures Id(TARGET) !in Targets(Fan()) && Id(DETOUR) !in Targets(Fan()) && Id(1) !in Targets(Fan())
  {
  }

  lemma FanAbsorbed(s: Search)
    requires s == Search([], map[], {Id(1)})
    ensures var (next, found) := Absorb(s, Fan(), Id(TARGET));
            && !found
            && |next.visited| == CHILDREN + 1 && next.queue == TargetList(Fan())
            && next.visited <= {Id(1)} + Targets(Fan())
  {
    var fan := Fan();
    FanTargets();
    forall i | 0 <= i < CHILDREN ensures fan[i].target !in s.visited && fan[i].target != Id(TARGET) {
      assert fan[i].target in Targets(fan);
    }
    AbsorbFresh(s, fan, Id(TARGET));
    AbsorbAdds(s, fan, Id(TARGET));
  }

  lemma FirstDrain() returns (next: Search)
    ensures Drain(Crowded(), Start(Id(1)), Id(TARGET)) == (next, false)
    ensures |next.visited| == CHILDREN + 1 && |next.queue| == CHILDREN
    ensures forall i | 0 <= i < CHILDREN :: next.queue[i] == Id(FIRST + i)
    ensures Id(TARGET) !in next.visited && Id(DETOUR) !in next.visited
  {
    var s := Start(Id(1));
    var rest := Search([], map[], {Id(1)});
    assert s.queue[..1] == [Id(1)] && s.queue[1..] == [];
    FanOutgoing();
    FanAbsorbed(rest);
    assert Drain(Crowded(), s, Id(TARGET)) == Absorb(rest, Fan(), Id(TARGET));
    next := Drain(Crowded(), s, Id(TARGET)).0;
    FanTargets();
    assert Id(1)[0] != Id(TARGET)[0] && Id(1)[0] != Id(DETOUR)[0];
  }

  lemma SplitOutgoing(frontier: seq<string>)
    requires |frontier| == SPLIT - FIRST && forall i | 0 <= i < |frontier| :: frontier[i] == Id(FIRST + i)
    ensures ConfirmedOutgoing(Crowded(), frontier) == [Row(CHILDREN)]
  {
    var g, expected := Crowded(), [Row(CHILDREN)];
    CrowdedRows();
    assert frontier[0] == Id(FIRST);
    forall e ensures e in expected <==> Confirmed(g, e) && e.source in frontier {
      if Confirmed(g, e) && e.source in frontier {
        var k: nat :| k < CHILDREN + 3 && e == Row(k);
        var i :| 0 <= i < |frontier| && frontier[i] == e.source;
        assert e.source[0] == (FIRST + i) as char;
      }
    }
    OutgoingIs(g, frontier, expected);
  }

  lemma SecondDrain(s: Search) returns (next: Search)
    requires |s.visited| == CHILDREN + 1 && |s.queue| == CHILDREN
    requires forall i | 0 <= i < CHILDREN :: s.queue[i] == Id(FIRST + i)
    requires Id(TARGET) !in s.visited && Id(DETOUR) !in s.visited
    ensures Drain(Crowded(), s, Id(TARGET)) == (next, false)
    ensures |next.visited| == CHILDREN + 2 && Id(TARGET) !in next.visited
    ensures next.queue == s.queue[SPLIT - FIRST..] + [Id(DETOUR)]
  {
    var n := FrontierSize(s);
    assert n == SPLIT - FIRST;
    var edges := [Row(CHILDREN)];
    SplitOutgoing(s.queue[..n]);
    var rest := s.(queue := s.queue[n..]);
    assert TargetList(edges) == [Id(DETOUR)];
    AbsorbFresh(rest, edges, Id(TARGET));
    next := Absorb(rest, edges, Id(TARGET)).0;
  }

  lemma MixedOutgoing(frontier: seq<string>)
    requires |frontier| == CHILDREN - (SPLIT - FIRST) + 1 && frontier[|frontier| - 1] == Id(DETOUR)
    requires forall i | 0 <= i < |frontier| - 1 :: frontier[i] == Id(SPLIT + i)
    ensures ConfirmedOutgoing(Crowded(), frontier) == [Row(CHILDREN + 1), Row(CHILDREN + 2)]
  {
    var g, expected := Crowded(), [Row(CHILDREN + 1), Row(CHILDREN + 2)];
    CrowdedRows();
    CallOrdered(DETOUR, TARGET, CHILDREN + 1, SPLIT, TARGET, CHILDREN + 2);
    assert frontier[0] == Id(SPLIT);
    forall e ensures e in expected <==> Confirmed(g, e) && e.source in frontier {
      if Confirmed(g, e) && e.source in frontier {
        var k: nat :| k < CHILDREN + 3 && e == Row(k);
        var i :| 0 <= i < |frontier| && frontier[i] == e.source;
        assert e.source[0] == (if i == |frontier| - 1 then DETOUR else SPLIT + i) as char;
      }
    }
    OutgoingIs(g, frontier, expected);
  }

  lemma ThirdDrain(s: Search, queue: seq<string>)
    requires |queue| == CHILDREN && forall i | 0 <= i < CHILDREN :: queue[i] == Id(FIRST + i)
    requires |s.visited| == CHILDREN + 2 && Id(TARGET) !in s.visited
    requires s.queue == queue[SPLIT - FIRST..] + [Id(DETOUR)]
    ensures var (next, found) := Drain(Crowded(), s, Id(TARGET));
            found && Id(TARGET) in next.previous && next.previous[Id(TARGET)] == Row(CHILDREN + 1)
  {
    assert FrontierSize(s) == |s.queue| && s.queue[..|s.queue|] == s.queue;
    MixedOutgoing(s.queue);
  }

  /**
   The search finds the target, yet by way of the detour: four symbols, although the graph has a
   path of three. The second drain of this run takes 1,999 of 3,000 queued symbols.
  */
  lemma PartialDrainLosesShortest()
      returns (g: Graph, from: string, to: string, nodes: seq<string>, hops: seq<Edge>, shorter: seq<string>)
    ensures from in g.nodes && to in g.nodes && from != to
    ensures SearchFrom(g, Start(from), to).Found?
    ensures Traced(SearchFrom(g, Start(from), to).search.previous, from, to, nodes, hops)
    ensures |nodes| == 4 && IsPath(g, shorter, from, to) && |shorter| == 3
    ensures !FullDrains(g, Start(from), to)
  {
    g, from, to := Crowded(), Id(1), Id(TARGET);
    var end := ThreeDrains();
    var depth := SearchFacts(g, Start(from), from, to, map[from := 0]);
    nodes, hops := DetourTraced(end, depth);
    shorter := ShortWay();
    assert Id(1)[0] != Id(TARGET)[0];
  }

  lemma ThreeDrains() returns (end: Search)
    ensures SearchFrom(Crowded(), Start(Id(1)), Id(TARGET)) == Found(end)
    ensures Id(TARGET) in end.previous && end.previous[Id(TARGET)] == Row(CHILDREN + 1)
    ensures !FullDrains(Crowded(), Start(Id(1)), Id(TARGET))
  {
    var one := FirstDrain();
    var two := SecondDrain(one);
    ThirdDrain(two, one.queue);
    end := Drain(Crowded(), two, Id(TARGET)).0;
    assert SearchFrom(Crowded(), two, Id(TARGET)) == Found(end);
    assert SearchFrom(Crowded(), one, Id(TARGET)) == Found(end);
    assert !FullDrain(one);
    assert !FullDrains(Crowded(), one, Id(TARGET));
  }

  lemma ShortWay() returns (p: seq<string>)
    ensures IsPath(Crowded(), p, Id(1), Id(TARGET)) && |p| == 3
    ensures Id(1) in Crowded().nodes && Id(TARGET) in Crowded().nodes
  {
    var g := Crowded();
    CrowdedRows();
    p := [Id(1), Id(SPLIT), Id(TARGET)];
    assert Confirmed(g, Row(SPLIT - FIRST)) && Confirmed(g, Row(CHILDREN + 2));
    assert Linked(g, Id(1), Id(SPLIT)) && Linked(g, Id(SPLIT), Id(TARGET));
  }

  lemma DetourTraced(end: Search, depth: map<string, nat>) returns (nodes: seq<string>, hops: seq<Edge>)
    requires Tree(Crowded(), end, Id(1), depth)
    requires Id(TARGET) in end.previous && end.previous[Id(TARGET)] == Row(CHILDREN + 1)
    ensures Traced(end.previous, Id(1), Id(TARGET), nodes, hops) && |nodes| == 4
  {
    CrowdedRows();
    nodes := [Id(1), Id(FIRST), Id(DETOUR), Id(TARGET)];
    hops := [Row(0), Row(CHILDREN), Row(CHILDREN + 1)];
    assert Hangs(Crowded(), end.previous, depth, Id(TARGET));
    assert Id(DETOUR) in end.previous;
    assert Hangs(Crowded(), end.previous, depth, Id(DETOUR));
    var k: nat :| k < CHILDREN + 3 && end.previous[Id(DETOUR)] == Row(k);
    assert Row(k).target[0] == DETOUR as char && k == CHILDREN;
    assert Id(FIRST) in end.previous;
    assert Hangs(Crowded(), end.previous, depth, Id(FIRST));
    var j: nat :| j < CHILDREN + 3 && end.previous[Id(FIRST)] == Row(j);
    assert Row(j).target[0] == FIRST as char && j == 0;
  }
}
