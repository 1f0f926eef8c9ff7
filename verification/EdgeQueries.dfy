/**
 Two bounded edge queries: edges by target name, looked up in batches of bound parameters and
 put back in one order, and the edge that best explains why a test is related to a symbol.
*/
module EdgeQueries {
  import opened Options
  import opened Ordering

  datatype Edge = Edge(id: nat, source: string, target: string, kind: string, filePath: string, line: nat,
                       targetName: Option<string>, heuristic: bool)

  /** The columns of the UNIQUE index on edges. */
  function UniqueKey(e: Edge): Key {
    [Txt(e.source), Txt(e.target), Txt(e.kind), Txt(e.filePath), Num(e.line)]
  }

  ghost predicate EdgeTable(rows: seq<Edge>) {
    Distinct(rows) && Distinguishes(UniqueKey, rows)
  }

  // -------------------------------------------------------------------
  // Edges by target name
  // -------------------------------------------------------------------

  const TARGET_NAME_QUERY_BATCH_SIZE := 900

  function SqlOrder(e: Edge): Key {
    UniqueKey(e) + [Num(e.id)]
  }

  function ReturnOrder(e: Edge): Key {
    UniqueKey(e) + [OptText(e.targetName)]
  }

  function Named(names: seq<string>): Edge -> bool {
    (e: Edge) => e.targetName.Some? && e.targetName.value in names
  }

  /** One query: the edges with one of the names, in table order of the result. */
  function ByTargetNames(rows: seq<Edge>, names: seq<string>): seq<Edge> {
    Sort(SqlOrder, Filter(Named(names), rows))
  }

  function Chunks(names: seq<string>): (r: seq<seq<string>>)
    decreases |names|
  {
    if |names| <= TARGET_NAME_QUERY_BATCH_SIZE then (if names == [] then [] else [names])
    else [names[..TARGET_NAME_QUERY_BATCH_SIZE]] + Chunks(names[TARGET_NAME_QUERY_BATCH_SIZE..])
  }

  function ByChunks(rows: seq<Edge>, chunks: seq<seq<string>>): seq<Edge> {
    if chunks == [] then [] else ByTargetNames(rows, chunks[0]) + ByChunks(rows, chunks[1..])
  }

  lemma ChunkStep(rows: seq<Edge>, names: seq<string>, k: nat)
    requires k < |names|
    ensures var end := if k + TARGET_NAME_QUERY_BATCH_SIZE < |names| then k + TARGET_NAME_QUERY_BATCH_SIZE else |names|;
            ByChunks(rows, Chunks(names[k..])) == ByTargetNames(rows, names[k..end]) + ByChunks(rows, Chunks(names[end..]))
  {
    var n, rest := TARGET_NAME_QUERY_BATCH_SIZE, names[k..];
    if |rest| > n {
      assert rest[..n] == names[k..k + n] && rest[n..] == names[k + n..];
    } else {
      assert rest == names[k..|names|] && names[|names|..] == [];
    }
  }

  method GetEdgesByTargetNames(rows: seq<Edge>, targetNames: seq<string>) returns (edges: seq<Edge>)
    ensures edges == Sort(ReturnOrder, ByChunks(rows, Chunks(targetNames)))
  {
    edges := [];
    if targetNames == [] { return; }
    var k := 0;
    ghost var all := ByChunks(rows, Chunks(targetNames));
    assert targetNames[0..] == targetNames;
    while k < |targetNames|
      invariant 0 <= k <= |targetNames|
      invariant edges + ByChunks(rows, Chunks(targetNames[k..])) == all
    {
      var end := if k + TARGET_NAME_QUERY_BATCH_SIZE < |targetNames| then k + TARGET_NAME_QUERY_BATCH_SIZE else |targetNames|;
      ChunkStep(rows, targetNames, k);
      edges := edges + ByTargetNames(rows, targetNames[k..end]);
      k := end;
    }
    assert edges + [] == edges;
    edges := Sort(ReturnOrder, edges);
  }

  /** How many chunks hold a name. */
  function ChunksHolding(chunks: seq<seq<string>>, name: string): nat {
    if chunks == [] then 0 else (if name in chunks[0] then 1 else 0) + ChunksHolding(chunks[1..], name)
  }

  function CopiesOf(chunks: seq<seq<string>>, e: Edge): nat {
    if e.targetName.None? then 0 else ChunksHolding(chunks, e.targetName.value)
  }

  lemma {:induction false} ChunkedCount(rows: seq<Edge>, chunks: seq<seq<string>>, e: Edge)
    requires EdgeTable(rows)
    ensures multiset(ByChunks(rows, chunks))[e] == if e in rows then CopiesOf(chunks, e) else 0
  {
    if chunks == [] {
    } else {
      ChunkedCount(rows, chunks[1..], e);
      FilterCount(Named(chunks[0]), rows, e);
    }
  }

  lemma {:induction false} ChunksHoldAll(names: seq<string>, name: string)
    ensures name in names <==> ChunksHolding(Chunks(names), name) > 0
    decreases |names|
  {
    if |names| <= TARGET_NAME_QUERY_BATCH_SIZE {
    } else {
      ChunksHoldAll(names[TARGET_NAME_QUERY_BATCH_SIZE..], name);
      assert names == names[..TARGET_NAME_QUERY_BATCH_SIZE] + names[TARGET_NAME_QUERY_BATCH_SIZE..];
    }
  }

  lemma OrderByUniqueKey(rows: seq<Edge>, sorted: seq<Edge>, more: Edge -> Key, key: Edge -> Key)
    requires forall e :: key(e) == UniqueKey(e) + more(e)
    requires SortedBy(key, sorted)
    ensures SortedBy(UniqueKey, sorted)
  {
    forall i, j | 0 <= i < j < |sorted| ensures KeyLeq(UniqueKey(sorted[i]), UniqueKey(sorted[j])) {
      var a, b := sorted[i], sorted[j];
      if UniqueKey(a) == UniqueKey(b) {
        KeyTrichotomy(UniqueKey(a), UniqueKey(b));
      } else {
        KeyPrefix(UniqueKey(b), UniqueKey(a), more(b), more(a));
        assert KeyLeq(key(a), key(b));
      }
    }
  }

  /** The names repeat a stored edge's name across two chunks. */
  ghost predicate RepeatsAcrossChunks(rows: seq<Edge>, names: seq<string>) {
    exists e | e in rows :: CopiesOf(Chunks(names), e) > 1
  }

  lemma CopiesReturned(rows: seq<Edge>, names: seq<string>, e: Edge)
    requires EdgeTable(rows)
    ensures multiset(Sort(ReturnOrder, ByChunks(rows, Chunks(names))))[e] == if e in rows then CopiesOf(Chunks(names), e) else 0
    ensures multiset(ByTargetNames(rows, names))[e] == if e in rows && CopiesOf(Chunks(names), e) > 0 then 1 else 0
  {
    ChunkedCount(rows, Chunks(names), e);
    FilterCount(Named(names), rows, e);
    if e.targetName.Some? {
      ChunksHoldAll(names, e.targetName.value);
    }
  }

  /** The chunked lookup equals one filtered, sorted scan exactly when no stored edge's name comes in two chunks. */
  lemma ChunkedLookupIsScan(rows: seq<Edge>, names: seq<string>)
    requires EdgeTable(rows)
    ensures Sort(ReturnOrder, ByChunks(rows, Chunks(names))) == ByTargetNames(rows, names) <==> !RepeatsAcrossChunks(rows, names)
  {
    if RepeatsAcrossChunks(rows, names) {
      var e :| e in rows && CopiesOf(Chunks(names), e) > 1;
      CopiesReturned(rows, names, e);
    } else {
      var chunked := ByChunks(rows, Chunks(names));
      forall e ensures multiset(Sort(ReturnOrder, chunked))[e] == multiset(ByTargetNames(rows, names))[e] {
        CopiesReturned(rows, names, e);
      }
      SortedScans(rows, chunked, names);
    }
  }

  lemma SortedScans(rows: seq<Edge>, chunked: seq<Edge>, names: seq<string>)
    requires EdgeTable(rows)
    requires forall e :: multiset(Sort(ReturnOrder, chunked))[e] == multiset(ByTargetNames(rows, names))[e]
    ensures Sort(ReturnOrder, chunked) == ByTargetNames(rows, names)
  {
    var a, b := Sort(ReturnOrder, chunked), ByTargetNames(rows, names);
    SortSorted(ReturnOrder, chunked);
    SortSorted(SqlOrder, Filter(Named(names), rows));
    OrderByUniqueKey(rows, a, (e: Edge) => [OptText(e.targetName)], ReturnOrder);
    OrderByUniqueKey(rows, b, (e: Edge) => [Num(e.id)], SqlOrder);
    assert multiset(a) == multiset(b);
    forall e | e in a ensures e in rows {
      assert e in multiset(a) && e in multiset(b);
      assert e in multiset(Filter(Named(names), rows)) && e in Filter(Named(names), rows);
    }
    SortedUnique(UniqueKey, a, b);
  }

  /** Distinct names never repeat across chunks, so their lookup is the plain scan. */
  lemma {:induction false} DistinctNamesOnce(names: seq<string>, name: string)
    requires NoRepeats(names)
    ensures ChunksHolding(Chunks(names), name) <= 1
    decreases |names|
  {
    var n := TARGET_NAME_QUERY_BATCH_SIZE;
    if |names| <= n {
    } else {
      DistinctNamesOnce(names[n..], name);
      assert names == names[..n] + names[n..];
      NoRepeatsAcross(names[..n], names[n..]);
      ChunksHoldAll(names[n..], name);
    }
  }

  lemma DistinctNamesScan(rows: seq<Edge>, names: seq<string>)
    requires EdgeTable(rows) && NoRepeats(names)
    ensures Sort(ReturnOrder, ByChunks(rows, Chunks(names))) == ByTargetNames(rows, names)
  {
    forall e | e in rows ensures CopiesOf(Chunks(names), e) <= 1 {
      if e.targetName.Some? {
        DistinctNamesOnce(names, e.targetName.value);
      }
    }
    ChunkedLookupIsScan(rows, names);
  }

  /** A name repeated beyond one batch returns its edge twice. */
  lemma RepeatedNameDuplicates() returns (rows: seq<Edge>, names: seq<string>)
    ensures EdgeTable(rows) && Sort(ReturnOrder, ByChunks(rows, Chunks(names))) != ByTargetNames(rows, names)
  {
    var e := Edge(1, "a", "b", "calls", "f", 1, Some("run"), false);
    rows, names := [e], seq(TARGET_NAME_QUERY_BATCH_SIZE + 1, _ => "run");
    var n := TARGET_NAME_QUERY_BATCH_SIZE;
    assert names[..n][0] == "run" && names[n..] == ["run"];
    assert Chunks(names) == [names[..n], ["run"]];
    assert ChunksHolding([["run"]], "run") == 1;
    assert CopiesOf(Chunks(names), e) == 2;
    ChunkedLookupIsScan(rows, names);
  }

  // -------------------------------------------------------------------
  // Why a test is related
  // -------------------------------------------------------------------

  const MAX_WITNESS_TESTS := 50

  function WitnessOrder(e: Edge): Key {
    [Txt(e.kind), Txt(e.filePath), Num(e.line), Num(e.id)]
  }

  /** By kind, then file, then line, then row. */
  predicate Leads(e: Edge, f: Edge) {
    || TextLess(e.kind, f.kind)
    || (e.kind == f.kind
        && (|| TextLess(e.filePath, f.filePath)
            || (e.filePath == f.filePath && (e.line < f.line || (e.line == f.line && e.id <= f.id)))))
  }

  lemma WitnessOrderMeans(e: Edge, f: Edge)
    requires KeyLeq(WitnessOrder(e), WitnessOrder(f))
    ensures Leads(e, f)
  {
    TextTrichotomy(e.kind, f.kind);
    TextTrichotomy(e.filePath, f.filePath);
    if !Leads(e, f) {
      var k := if e.kind != f.kind then 0 else if e.filePath != f.filePath then 1 else if e.line != f.line then 2 else 3;
      assert KeyDiffersAt(WitnessOrder(f), WitnessOrder(e), k);
      KeyFirstDifference(WitnessOrder(f), WitnessOrder(e));
    }
  }

  predicate Joins(e: Edge, source: string, target: string) {
    e.source == source && e.target == target && !e.heuristic
  }

  /** The correlated subquery: the first edge of one direction. */
  function FirstEdge(rows: seq<Edge>, source: string, target: string): (r: Option<Edge>)
    ensures r.None? <==> forall e | e in rows :: !Joins(e, source, target)
    ensures r.Some? ==> r.value in rows && Joins(r.value, source, target)
  {
    if rows == [] then None
    else
      var later := FirstEdge(rows[1..], source, target);
      assert rows == [rows[0]] + rows[1..];
      if !Joins(rows[0], source, target) then later
      else if later.Some? && KeyLess(WitnessOrder(later.value), WitnessOrder(rows[0])) then later
      else Some(rows[0])
  }

  lemma {:induction false} FirstEdgeIsLeast(rows: seq<Edge>, source: string, target: string, e: Edge)
    requires e in rows && Joins(e, source, target)
    ensures FirstEdge(rows, source, target).Some?
    ensures KeyLeq(WitnessOrder(FirstEdge(rows, source, target).value), WitnessOrder(e))
  {
    var later := FirstEdge(rows[1..], source, target);
    var r := FirstEdge(rows, source, target).value;
    assert rows == [rows[0]] + rows[1..];
    KeyTrichotomy(WitnessOrder(rows[0]), WitnessOrder(rows[0]));
    if e in rows[1..] {
      FirstEdgeIsLeast(rows[1..], source, target, e);
    }
    if later.Some? {
      KeyTrichotomy(WitnessOrder(later.value), WitnessOrder(rows[0]));
      if r == rows[0] && e in rows[1..] {
        KeyLeqTransitive(WitnessOrder(r), WitnessOrder(later.value), WitnessOrder(e));
      }
    }
  }

  predicate Between(e: Edge, a: string, b: string) {
    Joins(e, a, b) || Joins(e, b, a)
  }

  /** An edge between two symbols, in either direction, that no other precedes. */
  ghost predicate IsWitness(rows: seq<Edge>, node: string, test: string, w: Edge) {
    && w in rows && Between(w, node, test)
    && forall e | e in rows && Between(e, node, test) :: KeyLeq(WitnessOrder(w), WitnessOrder(e)) && Leads(w, e)
  }

  function Better(first: Option<Edge>, e: Option<Edge>): Option<Edge> {
    if e.None? then first
    else if first.None? || KeyLess(WitnessOrder(e.value), WitnessOrder(first.value)) then e
    else first
  }

  function Witness(rows: seq<Edge>, node: string, test: string): Option<Edge> {
    Better(FirstEdge(rows, test, node), FirstEdge(rows, node, test))
  }

  /** The better of the two directions is the least edge between the symbols, self-edges included; without any there is none. */
  lemma WitnessIsLeast(rows: seq<Edge>, node: string, test: string)
    ensures match Witness(rows, node, test)
            case None => forall e | e in rows :: !Between(e, node, test)
            case Some(w) => IsWitness(rows, node, test, w)
  {
    var w := Witness(rows, node, test);
    var incoming, outgoing := FirstEdge(rows, test, node), FirstEdge(rows, node, test);
    if w.Some? {
      forall e | e in rows && Between(e, node, test) ensures KeyLeq(WitnessOrder(w.value), WitnessOrder(e)) && Leads(w.value, e) {
        var least := if Joins(e, test, node) then incoming else outgoing;
        if Joins(e, test, node) {
          FirstEdgeIsLeast(rows, test, node, e);
        } else {
          FirstEdgeIsLeast(rows, node, test, e);
        }
        KeyTrichotomy(WitnessOrder(w.value), WitnessOrder(least.value));
        KeyLeqTransitive(WitnessOrder(w.value), WitnessOrder(least.value), WitnessOrder(e));
        WitnessOrderMeans(w.value, e);
      }
    }
  }

  function Looked(m: map<string, Edge>, t: string): Option<Edge> {
    if t in m then Some(m[t]) else None
  }

  /** An edge is kept for a test unless one at least as good is there. */
  function Offer(m: map<string, Edge>, t: string, e: Option<Edge>): (r: map<string, Edge>)
    ensures forall u :: Looked(r, u) == if u == t then Better(Looked(m, t), e) else Looked(m, u)
  {
    if e.Some? && (t !in m || KeyLess(WitnessOrder(e.value), WitnessOrder(m[t]))) then m[t := e.value] else m
  }

  /** Explain a page of tests: one least edge each, for exactly the tests that have one; larger pages are refused. */
  method GetRelatedTestWitnesses(rows: seq<Edge>, node: string, tests: seq<string>) returns (r: Option<map<string, Edge>>)
    ensures r.None? <==> |tests| > MAX_WITNESS_TESTS
    ensures r.Some? ==> forall t :: t in r.value <==> t in tests && exists e | e in rows :: Between(e, node, t)
    ensures r.Some? ==> forall t | t in r.value :: IsWitness(rows, node, t, r.value[t])
  {
    if |tests| > MAX_WITNESS_TESTS { return None; }
    var witnesses: map<string, Edge> := map[];
    for k := 0 to |tests|
      invariant forall t :: Looked(witnesses, t) == if t in tests[..k] then FirstEdge(rows, t, node) else None
    {
      assert tests[..k + 1] == tests[..k] + [tests[k]];
      witnesses := Offer(witnesses, tests[k], FirstEdge(rows, tests[k], node));
    }
    for k := 0 to |tests|
      invariant forall t :: Looked(witnesses, t) ==
                  if t in tests[..k] then Witness(rows, node, t) else if t in tests then FirstEdge(rows, t, node) else None
    {
      assert tests[..k + 1] == tests[..k] + [tests[k]];
      witnesses := Offer(witnesses, tests[k], FirstEdge(rows, node, tests[k]));
    }
    forall t
      ensures t in witnesses <==> t in tests && exists e | e in rows :: Between(e, node, t)
      ensures t in witnesses ==> IsWitness(rows, node, t, witnesses[t])
    {
      assert Looked(witnesses, t) == if t in tests then Witness(rows, node, t) else None;
      WitnessIsLeast(rows, node, t);
    }
    r := Some(witnesses);
  }

  // -------------------------------------------------------------------
  // The page of related tests
  // -------------------------------------------------------------------

  datatype Node = Node(id: string, name: string, filePath: string, startLine: nat, startColumn: nat, isTest: bool)

  function LowerAscii(s: string): string {
    seq(|s|, i requires 0 <= i < |s| => if 'A' <= s[i] <= 'Z' then s[i] + 32 as char else s[i])
  }

  predicate HasPrefix(s: string, p: string) {
    |p| <= |s| && s[..|p|] == p
  }

  predicate Mentions(s: string, p: string) {
    HasPrefix(s, p) || (s != [] && Mentions(s[1..], p))
  }

  function TestOrder(name: string, file: string): Node -> Key {
    (n: Node) => [Num(if Mentions(LowerAscii(n.name), LowerAscii(name)) then 0 else 1), Num(if n.filePath == file then 0 else 1),
          Txt(n.filePath), Num(n.startLine), Num(n.startColumn), Txt(n.id)]
  }

  function Adjacent(rows: seq<Edge>, node: string): set<string> {
    (set e | e in rows && e.target == node && !e.heuristic :: e.source)
    + (set e | e in rows && e.source == node && !e.heuristic :: e.target)
  }

  function IsRelatedTest(rows: seq<Edge>, node: string): Node -> bool {
    (n: Node) => n.isTest && n.id in Adjacent(rows, node)
  }

  /** The first tests next to a symbol, those that mention its name and share its file in front. */
  function GetRelatedTestNodes(nodes: seq<Node>, rows: seq<Edge>, node: string, name: string, file: string, limit: nat): seq<Node> {
    var ordered := Sort(TestOrder(name, file), Filter(IsRelatedTest(rows, node), nodes));
    if |ordered| <= limit then ordered else ordered[..limit]
  }

  /** Every test on a page has an explaining edge, so a page of at most fifty is explained in full. */
  lemma RelatedTestsHaveWitnesses(nodes: seq<Node>, rows: seq<Edge>, node: string, name: string, file: string, limit: nat, n: Node)
    requires n in GetRelatedTestNodes(nodes, rows, node, name, file, limit)
    ensures n in nodes && n.isTest
    ensures Witness(rows, node, n.id).Some? && IsWitness(rows, node, n.id, Witness(rows, node, n.id).value)
    ensures |GetRelatedTestNodes(nodes, rows, node, name, file, limit)| <= limit
  {
    var related := Filter(IsRelatedTest(rows, node), nodes);
    var ordered := Sort(TestOrder(name, file), related);
    assert n in ordered;
    assert n in multiset(ordered) && n in multiset(related) && n in related;
    var e :| e in rows && !e.heuristic && ((e.target == node && e.source == n.id) || (e.source == node && e.target == n.id));
    assert Between(e, node, n.id);
    WitnessIsLeast(rows, node, n.id);
  }

  /** A related test is on the page unless the page is full of tests that do not come after it. */
  lemma RelatedTestsComeFirst(nodes: seq<Node>, rows: seq<Edge>, node: string, name: string, file: string, limit: nat, n: Node)
    requires n in nodes && IsRelatedTest(rows, node)(n)
    ensures var page, order := GetRelatedTestNodes(nodes, rows, node, name, file, limit), TestOrder(name, file);
            n in page || (|page| == limit && forall p | p in page :: KeyLeq(order(p), order(n)))
  {
    var order, related := TestOrder(name, file), Filter(IsRelatedTest(rows, node), nodes);
    var ordered := Sort(order, related);
    SortSorted(order, related);
    SortKeepsMembers(order, related);
    var i :| 0 <= i < |ordered| && ordered[i] == n;
    if i < limit {
      assert |ordered| > limit ==> ordered[..limit][i] == n;
    }
  }
}
