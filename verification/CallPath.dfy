/**
 The bounded search for a static calls path: a breadth-first search that drains a batch of
 its queue at a time, visits at most 5,000 symbols, and rebuilds the path from predecessors.
 */
module CallPath {
  import opened Ordering

  const PATH_SEARCH_VISIT_LIMIT := 5000

  datatype Edge = Edge(source: string, target: string, kind: string, filePath: string, line: nat,
                       rowId: nat, heuristic: bool)

  /** The indexed symbols and the stored edge rows, whose row ids are unique. */
  datatype Graph = Graph(nodes: set<string>, edges: seq<Edge>)

  function EdgeOrder(e: Edge): Key {
    [Txt(e.source), Txt(e.target), Txt(e.filePath), Num(e.line), Num(e.rowId)]
  }

  predicate Confirmed(g: Graph, e: Edge) {
    && e in g.edges
    && e.kind == "calls"
    && e.source in g.nodes && e.target in g.nodes
    && !e.heuristic
  }

  /** The edge query of one drain: joined with indexed endpoints, ordered, then without heuristic candidates. */
  function ConfirmedOutgoing(g: Graph, frontier: seq<string>): (r: seq<Edge>)
    ensures forall e :: e in r <==> Confirmed(g, e) && e.source in frontier
  {
    if frontier == [] then []
    else
      var selected := Filter(Joined(g, frontier), g.edges);
      SortKeepsMembers(EdgeOrder, selected);
      Filter(NotHeuristic(), Sort(EdgeOrder, selected))
  }

  function Joined(g: Graph, frontier: seq<string>): Edge -> bool {
    (e: Edge) => e.kind == "calls" && e.source in frontier && e.source in g.nodes && e.target in g.nodes
  }

  function NotHeuristic(): Edge -> bool {
    (e: Edge) => !e.heuristic
  }

  /** Of two calls between the same symbols, the first is not later by file, line and row. */
  predicate NoLater(e: Edge, f: Edge) {
    || TextLess(e.filePath, f.filePath)
    || (e.filePath == f.filePath && (e.line < f.line || (e.line == f.line && e.rowId <= f.rowId)))
  }

  /** The order of the query: by caller, then callee, then place. */
  predicate InQueryOrder(e: Edge, f: Edge) {
    || TextLess(e.source, f.source)
    || (e.source == f.source && (TextLess(e.target, f.target) || (e.target == f.target && NoLater(e, f))))
  }

  lemma EdgeOrderMeans(e: Edge, f: Edge)
    requires KeyLeq(EdgeOrder(e), EdgeOrder(f))
    ensures InQueryOrder(e, f)
  {
    TextTrichotomy(e.source, f.source);
    TextTrichotomy(e.target, f.target);
    TextTrichotomy(e.filePath, f.filePath);
    if !InQueryOrder(e, f) {
      var k := if e.source != f.source then 0 else if e.target != f.target then 1
               else if e.filePath != f.filePath then 2 else if e.line != f.line then 3 else 4;
      assert KeyDiffersAt(EdgeOrder(f), EdgeOrder(e), k);
      KeyFirstDifference(EdgeOrder(f), EdgeOrder(e));
    }
  }

  ghost predicate Ordered(edges: seq<Edge>) {
    forall i, j | 0 <= i < j < |edges| :: InQueryOrder(edges[i], edges[j])
  }

  /** Dropping heuristic candidates after the query keeps its order and repeats or loses nothing else. */
  lemma OutgoingInOrder(g: Graph, frontier: seq<string>, e: Edge)
    ensures SortedBy(EdgeOrder, ConfirmedOutgoing(g, frontier)) && Ordered(ConfirmedOutgoing(g, frontier))
    ensures multiset(ConfirmedOutgoing(g, frontier))[e] ==
            if Confirmed(g, e) && e.source in frontier then multiset(g.edges)[e] else 0
  {
    var selected := Filter(Joined(g, frontier), g.edges);
    var ordered := Sort(EdgeOrder, selected);
    SortSorted(EdgeOrder, selected);
    FilterSorted(EdgeOrder, NotHeuristic(), ordered);
    FilterCount(Joined(g, frontier), g.edges, e);
    FilterCount(NotHeuristic(), ordered, e);
    OrderedByKey(ConfirmedOutgoing(g, frontier));
  }

  lemma OrderedByKey(edges: seq<Edge>)
    requires SortedBy(EdgeOrder, edges)
    ensures Ordered(edges)
  {
    forall i, j | 0 <= i < j < |edges| ensures InQueryOrder(edges[i], edges[j]) {
      EdgeOrderMeans(edges[i], edges[j]);
    }
  }


  // -------------------------------------------------------------------
  // The search
  // -------------------------------------------------------------------

  datatype Search = Search(queue: seq<string>, previous: map<string, Edge>, visited: set<string>)

  datatype Verdict = Found(search: Search) | Exhausted(visited: set<string>)

  function Visit(s: Search, e: Edge): Search {
    s.(previous := s.previous[e.target := e], visited := s.visited + {e.target})
  }

  /** The edges of one drain, in order, until the target or the visit limit is reached. */
  function Absorb(s: Search, edges: seq<Edge>, to: string): (r: (Search, bool))
    ensures |s.visited| <= |r.0.visited|
    ensures |r.0.queue| - |s.queue| <= |r.0.visited| - |s.visited|
    ensures |s.visited| <= PATH_SEARCH_VISIT_LIMIT ==> |r.0.visited| <= PATH_SEARCH_VISIT_LIMIT
    decreases |edges|
  {
    if edges == [] || |s.visited| >= PATH_SEARCH_VISIT_LIMIT then (s, false)
    else if edges[0].target in s.visited then Absorb(s, edges[1..], to)
    else
      var next := Visit(s, edges[0]);
      if edges[0].target == to then (next, true)
      else Absorb(next.(queue := s.queue + [edges[0].target]), edges[1..], to)
  }

  function FrontierSize(s: Search): (n: nat)
    requires |s.visited| < PATH_SEARCH_VISIT_LIMIT
    ensures s.queue != [] ==> 0 < n <= |s.queue|
  {
    if |s.queue| <= PATH_SEARCH_VISIT_LIMIT - |s.visited| then |s.queue| else PATH_SEARCH_VISIT_LIMIT - |s.visited|
  }

  function Drain(g: Graph, s: Search, to: string): (r: (Search, bool))
    requires s.queue != [] && |s.visited| < PATH_SEARCH_VISIT_LIMIT
    ensures |r.0.visited| <= PATH_SEARCH_VISIT_LIMIT
    ensures 2 * |r.0.visited| - |r.0.queue| > 2 * |s.visited| - |s.queue|
  {
    var n := FrontierSize(s);
    Absorb(s.(queue := s.queue[n..]), ConfirmedOutgoing(g, s.queue[..n]), to)
  }

  function SearchFrom(g: Graph, s: Search, to: string): Verdict
    decreases 2 * (PATH_SEARCH_VISIT_LIMIT - |s.visited|) + |s.queue|
  {
    if s.queue == [] || |s.visited| >= PATH_SEARCH_VISIT_LIMIT then Exhausted(s.visited)
    else
      var (next, found) := Drain(g, s, to);
      if found then Found(next) else SearchFrom(g, next, to)
  }

  function Start(from: string): Search {
    Search([from], map[], {from})
  }

  // -------------------------------------------------------------------
  // Predecessors form a tree over the visited symbols
  // -------------------------------------------------------------------

  /** A visited symbol other than the source is called by one that is a step nearer. */
  ghost predicate Hangs(g: Graph, previous: map<string, Edge>, depth: map<string, nat>, v: string)
    requires v in previous
  {
    var e := previous[v];
    Confirmed(g, e) && e.target == v && e.source in depth && v in depth && depth[v] == depth[e.source] + 1
  }

  // The trigger keeps the solver from walking up the tree by itself.
  ghost predicate Tree(g: Graph, s: Search, from: string, depth: map<string, nat>) {
    && depth.Keys == s.visited
    && from in depth && depth[from] == 0
    && s.previous.Keys == s.visited - {from}
    && (forall v {:trigger Hangs(g, s.previous, depth, v)} | v in s.previous :: Hangs(g, s.previous, depth, v))
    && (forall v | v in s.queue :: v in s.visited)
  }

  ghost function AbsorbDepth(s: Search, edges: seq<Edge>, to: string, depth: map<string, nat>): map<string, nat>
    requires forall e | e in edges :: e.source in depth
    decreases |edges|
  {
    if edges == [] || |s.visited| >= PATH_SEARCH_VISIT_LIMIT then depth
    else if edges[0].target in s.visited then AbsorbDepth(s, edges[1..], to, depth)
    else
      var e := edges[0];
      var deeper := depth[e.target := depth[e.source] + 1];
      if e.target == to then deeper
      else AbsorbDepth(Visit(s, e).(queue := s.queue + [e.target]), edges[1..], to, deeper)
  }

  lemma VisitTree(g: Graph, s: Search, e: Edge, from: string, depth: map<string, nat>, queue: seq<string>)
    requires Tree(g, s, from, depth) && Confirmed(g, e) && e.source in s.visited && e.target !in s.visited
    requires queue == s.queue || queue == s.queue + [e.target]
    ensures Tree(g, Visit(s, e).(queue := queue), from, depth[e.target := depth[e.source] + 1])
  {
    var next, deeper := Visit(s, e), depth[e.target := depth[e.source] + 1];
    forall v | v in next.previous ensures Hangs(g, next.previous, deeper, v) {
      if v != e.target {
        assert Hangs(g, s.previous, depth, v);
      }
    }
  }

  lemma {:induction false} AbsorbTree(g: Graph, s: Search, edges: seq<Edge>, from: string, to: string, depth: map<string, nat>)
    requires Tree(g, s, from, depth)
    requires forall e | e in edges :: Confirmed(g, e) && e.source in s.visited
    ensures Tree(g, Absorb(s, edges, to).0, from, AbsorbDepth(s, edges, to, depth))
    decreases |edges|
  {
    if edges == [] || |s.visited| >= PATH_SEARCH_VISIT_LIMIT {
    } else if edges[0].target in s.visited {
      AbsorbTree(g, s, edges[1..], from, to, depth);
    } else {
      var e := edges[0];
      VisitTree(g, s, e, from, depth, s.queue);
      VisitTree(g, s, e, from, depth, s.queue + [e.target]);
      if e.target != to {
        AbsorbTree(g, Visit(s, e).(queue := s.queue + [e.target]), edges[1..], from, to, depth[e.target := depth[e.source] + 1]);
      }
    }
  }

  function Targets(edges: seq<Edge>): set<string> {
    set e | e in edges :: e.target
  }

  /** What absorbing edges adds: targets of theirs, all of them unless it stopped early, each queued unless it is the target. */
  ghost predicate Added(s: Search, next: Search, found: bool, targets: set<string>, to: string) {
    && s.visited <= next.visited <= s.visited + targets
    && s.queue <= next.queue
    && (forall v :: v in next.queue[|s.queue|..] <==> v in next.visited && v !in s.visited && !(found && v == to))
    && NoRepeats(next.queue[|s.queue|..])
    && (found ==> to in next.visited && to !in s.visited)
    && (!found && to in next.visited ==> to in s.visited)
    && (!found && |next.visited| < PATH_SEARCH_VISIT_LIMIT ==> next.visited == s.visited + targets)
  }

  lemma AddedCompose(s: Search, mid: Search, next: Search, found: bool, v: string, rest: set<string>, to: string)
    requires v !in s.visited && v != to
    requires mid.visited == s.visited + {v} && mid.queue == s.queue + [v]
    requires Added(mid, next, found, rest, to)
    ensures Added(s, next, found, {v} + rest, to)
  {
    var tail := next.queue[|mid.queue|..];
    assert next.queue == mid.queue + tail;
    assert next.queue[|s.queue|..] == [v] + tail;
  }

  lemma {:induction false} AbsorbAdds(s: Search, edges: seq<Edge>, to: string)
    ensures var (next, found) := Absorb(s, edges, to);
            Added(s, next, found, Targets(edges), to)
    decreases |edges|
  {
    if edges == [] || |s.visited| >= PATH_SEARCH_VISIT_LIMIT {
    } else {
      var e := edges[0];
      assert Targets(edges) == {e.target} + Targets(edges[1..]) by {
        assert edges == [e] + edges[1..];
      }
      if e.target in s.visited {
        AbsorbAdds(s, edges[1..], to);
      } else if e.target == to {
        assert e in edges;
      } else {
        var mid := Visit(s, e).(queue := s.queue + [e.target]);
        AbsorbAdds(mid, edges[1..], to);
        var (next, found) := Absorb(mid, edges[1..], to);
        AddedCompose(s, mid, next, found, e.target, Targets(edges[1..]), to);
      }
    }
  }

  ghost predicate OneDeeper(depth: map<string, nat>, after: map<string, nat>, d: nat) {
    && (forall v | v in depth :: v in after && after[v] == depth[v])
    && (forall v | v in after && v !in depth :: after[v] == d + 1)
  }

  /** Absorbing edges keeps known depths and puts every new symbol one step below a source of the edges. */
  lemma {:induction false} AbsorbDeepens(s: Search, edges: seq<Edge>, to: string, depth: map<string, nat>, d: nat)
    requires forall e | e in edges :: e.source in depth && e.source in s.visited && depth[e.source] == d
    requires s.visited == depth.Keys
    ensures Absorb(s, edges, to).0.visited == AbsorbDepth(s, edges, to, depth).Keys
    ensures OneDeeper(depth, AbsorbDepth(s, edges, to, depth), d)
    decreases |edges|
  {
    if edges == [] || |s.visited| >= PATH_SEARCH_VISIT_LIMIT {
    } else if edges[0].target in s.visited {
      AbsorbDeepens(s, edges[1..], to, depth, d);
    } else {
      var e, mid := edges[0], Visit(s, edges[0]);
      var deeper := depth[e.target := d + 1];
      assert deeper.Keys == mid.visited;
      if e.target == to {
        DeepensCompose(depth, deeper, e.target, d);
      } else {
        AbsorbDeepens(mid.(queue := s.queue + [e.target]), edges[1..], to, deeper, d);
        DeepensCompose(depth, AbsorbDepth(mid.(queue := s.queue + [e.target]), edges[1..], to, deeper), e.target, d);
      }
    }
  }

  lemma DeepensCompose(depth: map<string, nat>, after: map<string, nat>, v: string, d: nat)
    requires v !in depth && OneDeeper(depth[v := d + 1], after, d)
    ensures OneDeeper(depth, after, d)
  {
  }

  // -------------------------------------------------------------------
  // Reference definitions: paths and balls around the source
  // -------------------------------------------------------------------

  ghost predicate Linked(g: Graph, u: string, v: string) {
    exists e | e in g.edges :: Confirmed(g, e) && e.source == u && e.target == v
  }

  ghost predicate IsPath(g: Graph, p: seq<string>, from: string, to: string) {
    && p != [] && p[0] == from && p[|p| - 1] == to
    && forall i | 0 <= i < |p| - 1 :: Linked(g, p[i], p[i + 1])
  }

  ghost function Successors(g: Graph, from: set<string>): set<string> {
    set e | e in g.edges && Confirmed(g, e) && e.source in from :: e.target
  }

  /** The symbols reachable in at most k confirmed calls. */
  ghost function Ball(g: Graph, from: string, k: nat): set<string> {
    if k == 0 then {from} else Ball(g, from, k - 1) + Successors(g, Ball(g, from, k - 1))
  }

  ghost predicate OnSphere(g: Graph, from: string, k: nat, v: string) {
    v in Ball(g, from, k) && (k > 0 ==> v !in Ball(g, from, k - 1))
  }

  lemma {:induction false} PathInBall(g: Graph, p: seq<string>, from: string, to: string)
    requires IsPath(g, p, from, to)
    ensures to in Ball(g, from, |p| - 1)
    decreases |p|
  {
    if |p| <= 1 {
    } else {
      var front := p[..|p| - 1];
      PathInBall(g, front, from, front[|front| - 1]);
      assert Linked(g, p[|p| - 2], p[|p| - 1]);
    }
  }

  lemma {:induction false} BallHasPath(g: Graph, from: string, k: nat, v: string) returns (p: seq<string>)
    requires v in Ball(g, from, k)
    ensures IsPath(g, p, from, v) && |p| <= k + 1
  {
    if k == 0 {
      p := [from];
    } else if v in Ball(g, from, k - 1) {
      p := BallHasPath(g, from, k - 1, v);
    } else {
      var e :| e in g.edges && Confirmed(g, e) && e.source in Ball(g, from, k - 1) && e.target == v;
      var front := BallHasPath(g, from, k - 1, e.source);
      p := front + [v];
      assert Linked(g, e.source, v);
      forall i | 0 <= i < |p| - 1 ensures Linked(g, p[i], p[i + 1]) {
        if i < |front| - 1 {
          assert Linked(g, front[i], front[i + 1]);
        }
      }
    }
  }

  lemma {:induction false} BallGrows(g: Graph, from: string, j: nat, k: nat)
    requires j <= k
    ensures Ball(g, from, j) <= Ball(g, from, k)
    decreases k
  {
    if j == k {
    } else {
      BallGrows(g, from, j, k - 1);
    }
  }

  // -------------------------------------------------------------------
  // Soundness and completeness of the search
  // -------------------------------------------------------------------

  ghost function DrainDepth(g: Graph, s: Search, to: string, depth: map<string, nat>): map<string, nat>
    requires s.queue != [] && |s.visited| < PATH_SEARCH_VISIT_LIMIT
    requires forall v | v in s.queue :: v in depth
  {
    AbsorbDepth(s.(queue := s.queue[FrontierSize(s)..]), ConfirmedOutgoing(g, s.queue[..FrontierSize(s)]), to, depth)
  }

  lemma DrainTree(g: Graph, s: Search, from: string, to: string, depth: map<string, nat>)
    requires Tree(g, s, from, depth)
    requires s.queue != [] && |s.visited| < PATH_SEARCH_VISIT_LIMIT
    ensures Tree(g, Drain(g, s, to).0, from, DrainDepth(g, s, to, depth))
  {
    var n := FrontierSize(s);
    AbsorbTree(g, s.(queue := s.queue[n..]), ConfirmedOutgoing(g, s.queue[..n]), from, to, depth);
  }

  /** Below the limit, every visited symbol that has left the queue has all its callees visited. */
  ghost predicate Expanded(g: Graph, s: Search) {
    |s.visited| < PATH_SEARCH_VISIT_LIMIT ==>
      forall e | e in g.edges && Confirmed(g, e) && e.source in s.visited && e.source !in s.queue :: e.target in s.visited
  }

  lemma AddedExpands(g: Graph, s: Search, front: seq<string>, back: seq<string>, edges: seq<Edge>, next: Search, to: string)
    requires s.queue == front + back && |s.visited| < PATH_SEARCH_VISIT_LIMIT && Expanded(g, s)
    requires forall e :: e in edges <==> Confirmed(g, e) && e.source in front
    requires Added(s.(queue := back), next, false, Targets(edges), to)
    ensures Expanded(g, next)
  {
  }

  lemma DrainExpands(g: Graph, s: Search, to: string)
    requires s.queue != [] && |s.visited| < PATH_SEARCH_VISIT_LIMIT && Expanded(g, s)
    ensures var (next, found) := Drain(g, s, to);
            && (found ==> to in next.visited)
            && (!found ==> Expanded(g, next) && (to in next.visited ==> to in s.visited))
  {
    var n := FrontierSize(s);
    var front, back := s.queue[..n], s.queue[n..];
    var edges := ConfirmedOutgoing(g, front);
    AbsorbAdds(s.(queue := back), edges, to);
    var (next, found) := Absorb(s.(queue := back), edges, to);
    if !found {
      assert s.queue == front + back;
      AddedExpands(g, s, front, back, edges, next, to);
    }
  }

  /**
   A found target hangs in a tree of confirmed calls rooted at the source; a search that ends without
   it stayed within the limit, and below the limit it has visited everything reachable.
  */
  lemma {:induction false} SearchFacts(g: Graph, s: Search, from: string, to: string, depth: map<string, nat>)
      returns (after: map<string, nat>)
    requires Tree(g, s, from, depth) && Expanded(g, s) && to !in s.visited
    requires |s.visited| <= PATH_SEARCH_VISIT_LIMIT
    ensures match SearchFrom(g, s, to)
            case Found(end) => Tree(g, end, from, after) && to in end.visited && |end.visited| <= PATH_SEARCH_VISIT_LIMIT
            case Exhausted(visited) =>
              && |visited| <= PATH_SEARCH_VISIT_LIMIT && from in visited && to !in visited
              && (|visited| < PATH_SEARCH_VISIT_LIMIT ==> Successors(g, visited) <= visited)
    decreases 2 * (PATH_SEARCH_VISIT_LIMIT - |s.visited|) + |s.queue|
  {
    after := depth;
    if s.queue == [] || |s.visited| >= PATH_SEARCH_VISIT_LIMIT {
    } else {
      DrainTree(g, s, from, to, depth);
      DrainExpands(g, s, to);
      var (next, found) := Drain(g, s, to);
      after := DrainDepth(g, s, to, depth);
      if !found {
        after := SearchFacts(g, next, from, to, after);
      }
    }
  }

  lemma {:induction false} ClosedHasNoExit(g: Graph, closed: set<string>, p: seq<string>, from: string, to: string)
    requires from in closed && Successors(g, closed) <= closed && IsPath(g, p, from, to)
    ensures to in closed
    decreases |p|
  {
    if |p| <= 1 {
    } else {
      var front := p[..|p| - 1];
      ClosedHasNoExit(g, closed, front, from, front[|front| - 1]);
      assert Linked(g, p[|p| - 2], p[|p| - 1]);
    }
  }

  /** Ending without the target below the visit limit proves that no confirmed calls path exists. */
  lemma ExhaustedMeansUnreachable(g: Graph, from: string, to: string)
    requires from != to
    ensures var end := SearchFrom(g, Start(from), to);
            end.Exhausted? ==>
              && |end.visited| <= PATH_SEARCH_VISIT_LIMIT
              && (|end.visited| < PATH_SEARCH_VISIT_LIMIT ==> forall p :: !IsPath(g, p, from, to))
  {
    var _ := SearchFacts(g, Start(from), from, to, map[from := 0]);
    var end := SearchFrom(g, Start(from), to);
    if end.Exhausted? && |end.visited| < PATH_SEARCH_VISIT_LIMIT {
      forall p | IsPath(g, p, from, to) ensures false {
        ClosedHasNoExit(g, end.visited, p, from, to);
      }
    }
  }

  /** Whatever hangs in the tree is reached by a confirmed path as long as its depth says. */
  lemma {:induction false} TreePath(g: Graph, s: Search, from: string, v: string, depth: map<string, nat>) returns (p: seq<string>)
    requires Tree(g, s, from, depth) && v in s.visited
    ensures IsPath(g, p, from, v) && |p| == depth[v] + 1
    decreases depth[v]
  {
    if v == from {
      p := [from];
    } else {
      assert Hangs(g, s.previous, depth, v);
      var u := s.previous[v].source;
      var front := TreePath(g, s, from, u, depth);
      p := front + [v];
      assert Linked(g, u, v);
      forall i | 0 <= i < |p| - 1 ensures Linked(g, p[i], p[i + 1]) {
        if i < |front| - 1 {
          assert Linked(g, front[i], front[i + 1]);
        }
      }
    }
  }

  ghost predicate SearchWithin(s: Search, reach: set<string>) {
    s.visited <= reach && forall v | v in s.queue :: v in reach
  }

  lemma DrainStaysWithin(g: Graph, s: Search, to: string, reach: set<string>)
    requires Successors(g, reach) <= reach && SearchWithin(s, reach)
    requires s.queue != [] && |s.visited| < PATH_SEARCH_VISIT_LIMIT
    ensures SearchWithin(Drain(g, s, to).0, reach)
  {
    var n := FrontierSize(s);
    var rest, edges := s.(queue := s.queue[n..]), ConfirmedOutgoing(g, s.queue[..n]);
    AbsorbAdds(rest, edges, to);
    var (next, found) := Absorb(rest, edges, to);
    assert Targets(edges) <= reach;
    AddedStaysWithin(rest, next, found, Targets(edges), to, reach);
  }

  lemma AddedStaysWithin(s: Search, next: Search, found: bool, targets: set<string>, to: string, reach: set<string>)
    requires SearchWithin(s, reach) && targets <= reach && Added(s, next, found, targets, to)
    ensures SearchWithin(next, reach)
  {
    assert next.queue == s.queue + next.queue[|s.queue|..];
  }

  lemma {:induction false} SearchStaysWithin(g: Graph, s: Search, to: string, reach: set<string>)
    requires Successors(g, reach) <= reach && SearchWithin(s, reach)
    ensures match SearchFrom(g, s, to) case Found(end) => end.visited <= reach case Exhausted(visited) => visited <= reach
    decreases 2 * (PATH_SEARCH_VISIT_LIMIT - |s.visited|) + |s.queue|
  {
    if s.queue == [] || |s.visited| >= PATH_SEARCH_VISIT_LIMIT {
    } else {
      DrainStaysWithin(g, s, to, reach);
      var (next, found) := Drain(g, s, to);
      if !found {
        SearchStaysWithin(g, next, to, reach);
      }
    }
  }

  /**
   When what the source can reach stays below the visit limit, the search decides reachability: it
   finds the target if and only if a confirmed path exists, whether its drains are full or not.
  */
  lemma SearchDecides(g: Graph, from: string, to: string, reach: set<string>)
    requires from != to
    requires from in reach && Successors(g, reach) <= reach && |reach| < PATH_SEARCH_VISIT_LIMIT
    ensures SearchFrom(g, Start(from), to).Found? <==> exists p :: IsPath(g, p, from, to)
  {
    var depth := SearchFacts(g, Start(from), from, to, map[from := 0]);
    match SearchFrom(g, Start(from), to) {
      case Found(end) =>
        var p := TreePath(g, end, from, to, depth);
      case Exhausted(visited) =>
        SearchStaysWithin(g, Start(from), to, reach);
        Subset(visited, reach);
        ExhaustedMeansUnreachable(g, from, to);
    }
  }

  // -------------------------------------------------------------------
  // Shortest paths
  // -------------------------------------------------------------------

  /** The search stands between levels: everything within d calls is visited, and the queue is level d. */
  ghost predicate Level(g: Graph, s: Search, from: string, d: nat, depth: map<string, nat>) {
    && s.visited == Ball(g, from, d)
    && (forall v :: v in s.queue <==> OnSphere(g, from, d, v))
    && NoRepeats(s.queue)
    && (forall v | v in s.queue :: v in depth && depth[v] == d)
  }

  predicate FullDrain(s: Search) {
    |s.visited| + |s.queue| <= PATH_SEARCH_VISIT_LIMIT
  }

  /** Every drain of the run takes the whole queue, except that the one meeting the target may be partial. */
  predicate FullDrains(g: Graph, s: Search, to: string)
    decreases 2 * (PATH_SEARCH_VISIT_LIMIT - |s.visited|) + |s.queue|
  {
    s.queue == [] || |s.visited| >= PATH_SEARCH_VISIT_LIMIT ||
    var (next, found) := Drain(g, s, to); found || (FullDrain(s) && FullDrains(g, next, to))
  }

  lemma FrontierTargets(g: Graph, s: Search, from: string, d: nat, depth: map<string, nat>)
    requires Level(g, s, from, d, depth)
    ensures s.visited + Targets(ConfirmedOutgoing(g, s.queue)) == Ball(g, from, d + 1)
  {
  }

  lemma AddedLevel(g: Graph, s: Search, from: string, to: string, d: nat, targets: set<string>,
                   next: Search, found: bool, depth: map<string, nat>, after: map<string, nat>)
    requires Tree(g, s, from, depth) && Level(g, s, from, d, depth) && to !in s.visited
    requires Added(s.(queue := []), next, found, targets, to)
    requires s.visited + targets == Ball(g, from, d + 1)
    requires next.visited == after.Keys && OneDeeper(depth, after, d)
    ensures next.visited <= Ball(g, from, d + 1)
    ensures found <==> to in next.visited
    ensures found ==> to in after && after[to] == d + 1
    ensures !found && |next.visited| < PATH_SEARCH_VISIT_LIMIT ==> Level(g, next, from, d + 1, after)
  {
  }

  /** One full drain moves the search from level d to level d + 1, unless it finds the target there or hits the limit. */
  lemma DrainLevel(g: Graph, s: Search, from: string, to: string, d: nat, depth: map<string, nat>)
    requires Tree(g, s, from, depth) && Level(g, s, from, d, depth) && to !in s.visited
    requires s.queue != [] && |s.visited| < PATH_SEARCH_VISIT_LIMIT && FullDrain(s)
    ensures var (next, found) := Drain(g, s, to);
            var after := DrainDepth(g, s, to, depth);
            && next.visited <= Ball(g, from, d + 1)
            && (found <==> to in next.visited)
            && (found ==> to in after && after[to] == d + 1)
            && (!found && |next.visited| < PATH_SEARCH_VISIT_LIMIT ==> Level(g, next, from, d + 1, after))
  {
    var edges := ConfirmedOutgoing(g, s.queue);
    var rest := s.(queue := []);
    assert s.queue[..|s.queue|] == s.queue && s.queue[|s.queue|..] == [];
    var (next, found) := Absorb(rest, edges, to);
    var after := AbsorbDepth(rest, edges, to, depth);
    AbsorbAdds(rest, edges, to);
    AbsorbDeepens(rest, edges, to, depth, d);
    FrontierTargets(g, s, from, d, depth);
    AddedLevel(g, s, from, to, d, Targets(edges), next, found, depth, after);
  }

  /** Any drain out of one level, full or partial, meets the target only one step deeper. */
  lemma DrainFindsNext(g: Graph, s: Search, from: string, to: string, d: nat, depth: map<string, nat>)
    requires Tree(g, s, from, depth) && Level(g, s, from, d, depth) && to !in s.visited
    requires s.queue != [] && |s.visited| < PATH_SEARCH_VISIT_LIMIT
    ensures var (next, found) := Drain(g, s, to);
            var after := DrainDepth(g, s, to, depth);
            found ==> to in next.visited && to in after && after[to] == d + 1
  {
    var n := FrontierSize(s);
    var rest, edges := s.(queue := s.queue[n..]), ConfirmedOutgoing(g, s.queue[..n]);
    AbsorbAdds(rest, edges, to);
    AbsorbDeepens(rest, edges, to, depth, d);
  }

  lemma BeyondBall(g: Graph, from: string, to: string, d: nat)
    requires to !in Ball(g, from, d)
    ensures forall p | IsPath(g, p, from, to) :: d + 2 <= |p|
  {
    forall p | IsPath(g, p, from, to) ensures d + 2 <= |p| {
      PathInBall(g, p, from, to);
      if |p| - 1 <= d {
        BallGrows(g, from, |p| - 1, d);
      }
    }
  }

  /** Under full drains the depth at which the target is found is its distance. */
  lemma {:induction false} FoundAtDistance(g: Graph, s: Search, from: string, to: string, d: nat, depth: map<string, nat>)
      returns (after: map<string, nat>)
    requires Tree(g, s, from, depth) && Level(g, s, from, d, depth) && to !in s.visited
    requires FullDrains(g, s, to) && SearchFrom(g, s, to).Found?
    ensures var end := SearchFrom(g, s, to).search;
            && Tree(g, end, from, after)
            && to in end.visited
            && forall p | IsPath(g, p, from, to) :: after[to] + 1 <= |p|
    decreases 2 * (PATH_SEARCH_VISIT_LIMIT - |s.visited|) + |s.queue|
  {
    var (next, found) := Drain(g, s, to);
    DrainTree(g, s, from, to, depth);
    after := DrainDepth(g, s, to, depth);
    if found {
      DrainFindsNext(g, s, from, to, d, depth);
      BeyondBall(g, from, to, d);
    } else {
      DrainLevel(g, s, from, to, d, depth);
      after := FoundAtDistance(g, next, from, to, d + 1, after);
    }
  }

  ghost function Sphere(g: Graph, from: string, k: nat): set<string> {
    set v | v in Ball(g, from, k) && OnSphere(g, from, k, v)
  }

  /** The budget a target at distance n needs: no level is drained in part, and the last one is reached below the limit. */
  ghost predicate WithinBudget(g: Graph, from: string, n: nat) {
    && |Ball(g, from, n)| <= PATH_SEARCH_VISIT_LIMIT
    && forall k | 0 <= k < n :: LevelFits(g, from, k)
  }

  ghost predicate LevelFits(g: Graph, from: string, k: nat) {
    |Ball(g, from, k)| + |Sphere(g, from, k)| <= PATH_SEARCH_VISIT_LIMIT
  }

  lemma {:induction false} NoRepeatsCount(q: seq<string>, content: set<string>)
    requires NoRepeats(q) && forall v :: v in q <==> v in content
    ensures |q| == |content|
  {
    if q == [] {
      assert content == {};
    } else {
      assert q == [q[0]] + q[1..];
      NoRepeatsCount(q[1..], content - {q[0]});
    }
  }

  lemma LevelDrains(g: Graph, s: Search, from: string, to: string, d: nat, n: nat, depth: map<string, nat>)
    requires Level(g, s, from, d, depth) && d < n && OnSphere(g, from, n, to) && WithinBudget(g, from, n)
    ensures s.queue != [] && |s.visited| < PATH_SEARCH_VISIT_LIMIT && FullDrain(s) && to !in s.visited
  {
    assert to !in s.visited by {
      BallGrows(g, from, d, n - 1);
    }
    var sphere := Sphere(g, from, d);
    assert forall v :: v in s.queue <==> v in sphere;
    assert |s.queue| == |sphere| by {
      NoRepeatsCount(s.queue, sphere);
    }
    assert s.queue != [] by {
      var _ := LevelOccupied(g, from, d, n, to);
    }
    assert LevelFits(g, from, d);
  }

  lemma MissingOne(visited: set<string>, ball: set<string>, to: string)
    requires visited <= ball && to in ball && to !in visited
    ensures |visited| < |ball|
  {
    Subset(visited + {to}, ball);
  }

  lemma ShortOfTarget(g: Graph, from: string, to: string, d: nat, n: nat, visited: set<string>)
    requires d < n && OnSphere(g, from, n, to) && |Ball(g, from, n)| <= PATH_SEARCH_VISIT_LIMIT
    requires visited <= Ball(g, from, d + 1) && to !in visited
    ensures |visited| < PATH_SEARCH_VISIT_LIMIT
    ensures visited == Ball(g, from, d + 1) ==> d + 1 < n
  {
    var last := Ball(g, from, n);
    assert visited <= last by {
      BallGrows(g, from, d + 1, n);
    }
    MissingOne(visited, last, to);
  }

  /** Full drains from here find the target. */
  predicate FindsFully(g: Graph, s: Search, to: string) {
    SearchFrom(g, s, to).Found? && FullDrains(g, s, to)
  }

  ghost predicate Drained(g: Graph, s: Search, to: string, next: Search, found: bool) {
    && s.queue != [] && |s.visited| < PATH_SEARCH_VISIT_LIMIT && FullDrain(s)
    && Drain(g, s, to) == (next, found)
  }

  lemma FindsBefore(g: Graph, s: Search, to: string, next: Search, found: bool)
    requires Drained(g, s, to, next, found)
    ensures FindsFully(g, s, to) <==> found || FindsFully(g, next, to)
  {
    assert SearchFrom(g, s, to) == if found then Found(next) else SearchFrom(g, next, to);
    assert FullDrains(g, s, to) == (found || FullDrains(g, next, to));
  }

  ghost predicate AtLevel(g: Graph, s: Search, from: string, d: nat, depth: map<string, nat>) {
    Tree(g, s, from, depth) && Level(g, s, from, d, depth)
  }

  ghost predicate AheadWithinBudget(g: Graph, from: string, d: nat, to: string, n: nat) {
    d < n && OnSphere(g, from, n, to) && WithinBudget(g, from, n)
  }

  lemma DrainOnTheWay(g: Graph, s: Search, from: string, to: string, d: nat, n: nat, depth: map<string, nat>)
      returns (next: Search, found: bool, after: map<string, nat>)
    requires AtLevel(g, s, from, d, depth) && AheadWithinBudget(g, from, d, to, n)
    ensures Drained(g, s, to, next, found)
    ensures !found ==> AtLevel(g, next, from, d + 1, after) && AheadWithinBudget(g, from, d + 1, to, n)
  {
    LevelDrains(g, s, from, to, d, n, depth);
    DrainTree(g, s, from, to, depth);
    DrainLevel(g, s, from, to, d, depth);
    after := DrainDepth(g, s, to, depth);
    var (drained, hit) := Drain(g, s, to);
    next, found := drained, hit;
    if !found {
      ShortOfTarget(g, from, to, d, n, next.visited);
    }
  }

  lemma {:induction false} LevelReaches(g: Graph, s: Search, from: string, to: string, d: nat, n: nat, depth: map<string, nat>)
    requires AtLevel(g, s, from, d, depth) && AheadWithinBudget(g, from, d, to, n)
    ensures FindsFully(g, s, to)
    decreases n - d
  {
    var next, found, after := DrainOnTheWay(g, s, from, to, d, n, depth);
    if !found {
      LevelReaches(g, next, from, to, d + 1, n, after);
    }
    FindsBefore(g, s, to, next, found);
  }

  lemma Subset(a: set<string>, b: set<string>)
    requires a <= b
    ensures |a| <= |b|
  {
    assert b == a + (b - a);
  }

  /** Whatever lies at distance k is called by something at distance k - 1. */
  lemma SphereBelow(g: Graph, from: string, k: nat, v: string) returns (u: string)
    requires k > 0 && OnSphere(g, from, k, v)
    ensures OnSphere(g, from, k - 1, u)
  {
    var e :| e in g.edges && Confirmed(g, e) && e.source in Ball(g, from, k - 1) && e.target == v;
    u := e.source;
    if k > 1 {
      var inner := Ball(g, from, k - 2);
      assert u in inner ==> v in Successors(g, inner);
    }
  }

  /** A level before the target's own is not empty. */
  lemma {:induction false} LevelOccupied(g: Graph, from: string, d: nat, n: nat, v: string) returns (u: string)
    requires d <= n && OnSphere(g, from, n, v)
    ensures u in Sphere(g, from, d)
    decreases n
  {
    if d == n {
      u := v;
    } else {
      var below := SphereBelow(g, from, n, v);
      u := LevelOccupied(g, from, d, n - 1, below);
    }
  }

  /** Within its budget a reachable target is found, and every drain on the way is a full one. */
  lemma ReachableIsFound(g: Graph, from: string, to: string, n: nat)
    requires from != to
    requires OnSphere(g, from, n, to) && WithinBudget(g, from, n)
    ensures SearchFrom(g, Start(from), to).Found? && FullDrains(g, Start(from), to)
  {
    LevelReaches(g, Start(from), from, to, 0, n, map[from := 0]);
  }

  // -------------------------------------------------------------------
  // Which of several parallel calls is kept
  // -------------------------------------------------------------------

  /** No confirmed call between the same two symbols comes before this one. */
  ghost predicate LeastParallel(g: Graph, hop: Edge) {
    forall e | e in g.edges && Confirmed(g, e) && e.source == hop.source && e.target == hop.target :: NoLater(hop, e)
  }

  ghost predicate LeastHops(g: Graph, previous: map<string, Edge>) {
    forall v | v in previous :: LeastParallel(g, previous[v])
  }

  /** The first k edges of a drain have been absorbed. */
  ghost predicate PassedOver(s: Search, edges: seq<Edge>, k: nat) {
    k <= |edges| && forall j | 0 <= j < k :: edges[j].target in s.visited
  }

  lemma FirstIsLeast(g: Graph, frontier: seq<string>, s: Search, edges: seq<Edge>, k: nat)
    requires edges == ConfirmedOutgoing(g, frontier) && PassedOver(s, edges, k)
    requires k < |edges| && edges[k].target !in s.visited
    ensures LeastParallel(g, edges[k])
  {
    var hop := edges[k];
    assert hop in edges;
    forall e | e in g.edges && Confirmed(g, e) && e.source == hop.source && e.target == hop.target ensures NoLater(hop, e) {
      assert e in edges;
      var j :| 0 <= j < |edges| && edges[j] == e;
      OutgoingInOrder(g, frontier, hop);
      assert j >= k;
      assert j > k ==> InQueryOrder(edges[k], edges[j]);
      TextTrichotomy(hop.source, hop.source);
      TextTrichotomy(hop.target, hop.target);
    }
  }

  lemma {:induction false} AbsorbKeepsLeast(g: Graph, frontier: seq<string>, s: Search, edges: seq<Edge>, k: nat, to: string)
    requires edges == ConfirmedOutgoing(g, frontier) && PassedOver(s, edges, k) && LeastHops(g, s.previous)
    ensures LeastHops(g, Absorb(s, edges[k..], to).0.previous)
    decreases |edges| - k
  {
    if k == |edges| || |s.visited| >= PATH_SEARCH_VISIT_LIMIT {
    } else {
      assert edges[k..][0] == edges[k] && edges[k..][1..] == edges[k + 1..];
      if edges[k].target in s.visited {
        AbsorbKeepsLeast(g, frontier, s, edges, k + 1, to);
      } else {
        FirstIsLeast(g, frontier, s, edges, k);
        var next := Visit(s, edges[k]);
        if edges[k].target != to {
          AbsorbKeepsLeast(g, frontier, next.(queue := s.queue + [edges[k].target]), edges, k + 1, to);
        }
      }
    }
  }

  /** Every call that a found path can use is the first, by file, line and row, of those between its two symbols. */
  lemma {:induction false} SearchKeepsLeast(g: Graph, s: Search, to: string)
    requires LeastHops(g, s.previous)
    ensures SearchFrom(g, s, to).Found? ==> LeastHops(g, SearchFrom(g, s, to).search.previous)
    decreases 2 * (PATH_SEARCH_VISIT_LIMIT - |s.visited|) + |s.queue|
  {
    if s.queue == [] || |s.visited| >= PATH_SEARCH_VISIT_LIMIT {
    } else {
      var n := FrontierSize(s);
      var edges := ConfirmedOutgoing(g, s.queue[..n]);
      assert edges[0..] == edges;
      AbsorbKeepsLeast(g, s.queue[..n], s.(queue := s.queue[n..]), edges, 0, to);
      var (next, found) := Drain(g, s, to);
      if !found {
        SearchKeepsLeast(g, next, to);
      }
    }
  }

  lemma TracedLeast(g: Graph, previous: map<string, Edge>, from: string, to: string, nodes: seq<string>, hops: seq<Edge>)
    requires Traced(previous, from, to, nodes, hops) && LeastHops(g, previous)
    ensures forall hop | hop in hops :: LeastParallel(g, hop)
  {
    forall i | 0 <= i < |hops| ensures LeastParallel(g, hops[i]) {
      assert HopAt(previous, nodes, hops[i], i);
    }
  }

  // -------------------------------------------------------------------
  // Rebuilding the path
  // -------------------------------------------------------------------

  predicate HopAt(previous: map<string, Edge>, nodes: seq<string>, hop: Edge, i: nat)
    requires i + 1 < |nodes|
  {
    nodes[i + 1] in previous && hop == previous[nodes[i + 1]] && hop.source == nodes[i]
  }

  /** The node list and its hops, read off the predecessor map. */
  ghost predicate Traced(previous: map<string, Edge>, from: string, to: string, nodes: seq<string>, hops: seq<Edge>) {
    && |nodes| == |hops| + 1 && nodes[0] == from && nodes[|hops|] == to
    && forall i | 0 <= i < |hops| :: HopAt(previous, nodes, hops[i], i)
  }

  lemma {:induction false} TracedPath(g: Graph, s: Search, from: string, to: string, depth: map<string, nat>,
                                      nodes: seq<string>, hops: seq<Edge>)
    requires Tree(g, s, from, depth) && Traced(s.previous, from, to, nodes, hops)
    ensures IsPath(g, nodes, from, to) && to in depth && |nodes| == depth[to] + 1
    ensures forall i | 0 <= i < |hops| :: Confirmed(g, hops[i]) && hops[i].source == nodes[i] && hops[i].target == nodes[i + 1]
    decreases |hops|
  {
    if hops == [] {
    } else {
      var n := |hops| - 1;
      forall i | 0 <= i < n ensures HopAt(s.previous, nodes[..n + 1], hops[..n][i], i) {
        assert HopAt(s.previous, nodes, hops[i], i);
      }
      TracedPath(g, s, from, nodes[n], depth, nodes[..n + 1], hops[..n]);
      assert HopAt(s.previous, nodes, hops[n], n);
      assert Hangs(g, s.previous, depth, nodes[n + 1]);
      assert Confirmed(g, hops[n]) && Linked(g, nodes[n], nodes[n + 1]);
      forall i | 0 <= i < |nodes| - 1 ensures Linked(g, nodes[i], nodes[i + 1]) {
        if i < n {
          assert Linked(g, nodes[..n + 1][i], nodes[..n + 1][i + 1]);
        }
      }
      forall i | 0 <= i < |hops|
        ensures Confirmed(g, hops[i]) && hops[i].source == nodes[i] && hops[i].target == nodes[i + 1]
      {
        if i < n {
          assert hops[..n][i] == hops[i] && nodes[..n + 1][i] == nodes[i] && nodes[..n + 1][i + 1] == nodes[i + 1];
        }
      }
    }
  }

  function Reverse<T>(s: seq<T>): (r: seq<T>)
    ensures |r| == |s| && forall i | 0 <= i < |s| :: r[i] == s[|s| - 1 - i]
  {
    seq(|s|, i requires 0 <= i < |s| => s[|s| - 1 - i])
  }

  /** No predecessor is ever missing and the walk ends, because depths fall by one at every step. */
  method ReconstructPath(previous: map<string, Edge>, from: string, to: string,
                         ghost g: Graph, ghost s: Search, ghost depth: map<string, nat>)
      returns (nodes: seq<string>, hops: seq<Edge>)
    requires s.previous == previous && Tree(g, s, from, depth) && to in s.visited
    ensures Traced(previous, from, to, nodes, hops)
  {
    var ids, edges, cursor := [to], [], to;
    while cursor != from
      invariant cursor in s.visited && |ids| == |edges| + 1 && ids[0] == to && ids[|edges|] == cursor
      invariant forall i | 0 <= i < |edges| ::
                  ids[i] in previous && edges[i] == previous[ids[i]] && edges[i].source == ids[i + 1]
      decreases depth[cursor]
    {
      var edge := previous[cursor];
      assert Hangs(g, previous, depth, cursor);
      ids := ids + [edge.source];
      edges := edges + [edge];
      cursor := edge.source;
    }
    nodes, hops := Reverse(ids), Reverse(edges);
  }

  datatype PathAnswer =
    | Path(nodes: seq<string>, hops: seq<Edge>)
    | TooLong(length: nat)
    | NoStaticPath

  method AbsorbEdges(s: Search, edges: seq<Edge>, to: string) returns (next: Search, found: bool)
    ensures (next, found) == Absorb(s, edges, to)
  {
    next, found := s, false;
    for k := 0 to |edges|
      invariant !found && Absorb(next, edges[k..], to) == Absorb(s, edges, to)
    {
      if |next.visited| >= PATH_SEARCH_VISIT_LIMIT { break; }
      var edge := edges[k];
      assert edges[k..][0] == edge && edges[k..][1..] == edges[k + 1..];
      if edge.target !in next.visited {
        next := Visit(next, edge);
        if edge.target == to {
          found := true;
          return;
        }
        next := next.(queue := next.queue + [edge.target]);
      }
    }
  }

  /**
   The answer for two resolved endpoints. A returned list is a confirmed calls path within the
   response limit; when every drain before the last was full, it (or the length reported instead) is shortest.
  */
  method FindPath(g: Graph, from: string, to: string, limit: nat) returns (r: PathAnswer)
    requires from in g.nodes && to in g.nodes
    ensures from == to ==> r == Path([from], [])
    ensures from != to ==> (r.NoStaticPath? <==> SearchFrom(g, Start(from), to).Exhausted?)
    ensures from != to && r.Path? ==>
              && |r.nodes| <= limit && IsPath(g, r.nodes, from, to) && |r.hops| + 1 == |r.nodes|
              && Traced(SearchFrom(g, Start(from), to).search.previous, from, to, r.nodes, r.hops)
              && (forall v | v in r.nodes :: v in g.nodes)
              && forall i | 0 <= i < |r.hops| ::
                   Confirmed(g, r.hops[i]) && r.hops[i].source == r.nodes[i] && r.hops[i].target == r.nodes[i + 1]
    ensures r.Path? ==> forall hop | hop in r.hops :: LeastParallel(g, hop)
    ensures r.TooLong? ==> r.length > limit && exists p :: IsPath(g, p, from, to) && |p| == r.length
    ensures FullDrains(g, Start(from), to) ==>
              forall p | IsPath(g, p, from, to) ::
                (r.Path? ==> |r.nodes| <= |p|) && (r.TooLong? ==> r.length <= |p|)
  {
    if from == to {
      return Path([from], []);
    }
    var s := Start(from);
    while s.queue != []
      invariant SearchFrom(g, s, to) == SearchFrom(g, Start(from), to)
      decreases 2 * (PATH_SEARCH_VISIT_LIMIT - |s.visited|) + |s.queue|
    {
      if |s.visited| >= PATH_SEARCH_VISIT_LIMIT { break; }
      var frontierSize := FrontierSize(s);
      var frontier := s.queue[..frontierSize];
      var edges := ConfirmedOutgoing(g, frontier);
      var next, found := AbsorbEdges(s.(queue := s.queue[frontierSize..]), edges, to);
      assert (next, found) == Drain(g, s, to);
      if found {
        ghost var depth := SearchFacts(g, Start(from), from, to, map[from := 0]);
        var nodes, hops := ReconstructPath(next.previous, from, to, g, next, depth);
        TracedPath(g, next, from, to, depth, nodes, hops);
        if FullDrains(g, Start(from), to) {
          ghost var least := FoundAtDistance(g, Start(from), from, to, 0, map[from := 0]);
          TracedPath(g, next, from, to, least, nodes, hops);
        }
        PathIndexed(g, nodes, from, to);
        SearchKeepsLeast(g, Start(from), to);
        TracedLeast(g, next.previous, from, to, nodes, hops);
        return if |nodes| > limit then TooLong(|nodes|) else Path(nodes, hops);
      }
      s := next;
    }
    r := NoStaticPath;
  }

  lemma PathIndexed(g: Graph, p: seq<string>, from: string, to: string)
    requires IsPath(g, p, from, to) && from in g.nodes
    ensures forall v | v in p :: v in g.nodes
  {
    forall i | 0 <= i < |p| ensures p[i] in g.nodes {
      if i > 0 {
        assert Linked(g, p[i - 1], p[i]);
      }
    }
  }
}
