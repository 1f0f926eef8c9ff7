/**
 The graph store over one connection: mutations run statement by statement inside
 transactions that may nest, reads run inside read scopes that share an owner cache.
 Any statement may fail; `stepsLeft` is how many still succeed, and every theorem
 holds for every value of it.
 */
module GraphStore {
  import opened Options
  import opened Ordering
  import opened ImplOwners

  const SQL_BATCH := 500

  datatype Column = ById | ByFile

  predicate Matches(column: Column, row: NodeRow, keys: set<string>) {
    (if column.ById? then row.node.id else row.node.filePath) in keys
  }

  function NodeKey(n: CodeNode): Key {
    [Txt(n.filePath), Num(n.startLine), Num(n.startColumn), Txt(n.id)]
  }

  /** The order of listings: by file, then line, then column, then id. */
  predicate InStoreOrder(a: CodeNode, b: CodeNode) {
    || TextLess(a.filePath, b.filePath)
    || (a.filePath == b.filePath
        && (|| a.startLine < b.startLine
            || (a.startLine == b.startLine
                && (a.startColumn < b.startColumn || (a.startColumn == b.startColumn && (a.id == b.id || TextLess(a.id, b.id)))))))
  }

  lemma NodeKeyOrders(a: CodeNode, b: CodeNode)
    requires KeyLeq(NodeKey(a), NodeKey(b))
    ensures InStoreOrder(a, b)
  {
    TextTrichotomy(a.filePath, b.filePath);
    TextTrichotomy(a.id, b.id);
    if !InStoreOrder(a, b) {
      var k := if a.filePath != b.filePath then 0 else if a.startLine != b.startLine then 1
               else if a.startColumn != b.startColumn then 2 else 3;
      assert KeyDiffersAt(NodeKey(b), NodeKey(a), k);
      KeyFirstDifference(NodeKey(b), NodeKey(a));
    }
  }

  /** A listing in key order runs in store order. */
  lemma ListingInOrder(nodes: seq<CodeNode>, content: set<CodeNode>, i: nat, j: nat)
    requires IsListing(NodeKey, nodes, content) && i < j < |nodes|
    ensures InStoreOrder(nodes[i], nodes[j])
  {
    NodeKeyOrders(nodes[i], nodes[j]);
  }

  /** What a caller can ask of the store. A transaction stops at its first error, as its closures do with `?`. */
  datatype Command =
    | Upsert(batch: seq<CodeNode>)
    | UpsertEdges(rows: seq<EdgeRow>)
    | Replace(file: string, batch: seq<CodeNode>, rows: seq<EdgeRow>)
    | Delete(file: string, keepIncoming: bool)
    | Transaction(body: seq<Command>)
    | ReadScope(body: seq<Command>)
    | Fetch(column: Column, keys: seq<string>)

  datatype Outcome =
    | Refused            // a mutation attempted during a read scope
    | Failed             // the engine failed
    | Corrupt            // a node whose owner is missing or in another file
    | Done
    | Rows(nodes: seq<CodeNode>)
    | Nested(outcomes: seq<Outcome>)
  {
    predicate Ok() { Done? || Rows? || Nested? }
  }

  // -------------------------------------------------------------------
  // The meaning of commands, without any cache
  // -------------------------------------------------------------------

  function Apply(t: Tables, c: Command): (u: Tables)
    requires UniqueOwners(t.owners)
    ensures UniqueOwners(u.owners)
    decreases c, 0
  {
    match c
    case Upsert(batch) => UpsertNodes(t, batch)
    case UpsertEdges(rows) => t.(edges := PutEdges(t.edges, rows))
    case Replace(file, batch, rows) => ReplaceFile(t, file, batch, rows)
    case Delete(file, keepIncoming) => DeleteFile(t, file, keepIncoming)
    case Transaction(body) => ApplyAll(t, body)
    case ReadScope(_) => t
    case Fetch(_, _) => t
  }

  function ApplyAll(t: Tables, cs: seq<Command>): (u: Tables)
    requires UniqueOwners(t.owners)
    ensures UniqueOwners(u.owners)
    decreases cs, |cs|
  {
    if cs == [] then t else ApplyAll(Apply(t, cs[0]), cs[1..])
  }

  /** Every command, transactions nested to any depth included, keeps the tables consistent. */
  lemma {:induction false} ApplyConsistent(t: Tables, c: Command)
    requires Consistent(t)
    ensures Consistent(Apply(t, c))
    decreases c, 0
  {
    match c
    case Upsert(batch) => UpsertNodesConsistent(t, batch);
    case UpsertEdges(rows) =>
    case Replace(file, batch, rows) => ReplaceFileConsistent(t, file, batch, rows);
    case Delete(file, keepIncoming) => DeleteFileConsistent(t, file, keepIncoming);
    case Transaction(body) => ApplyAllConsistent(t, body);
    case ReadScope(_) =>
    case Fetch(_, _) =>
  }

  lemma {:induction false} ApplyAllConsistent(t: Tables, cs: seq<Command>)
    requires Consistent(t)
    ensures Consistent(ApplyAll(t, cs))
    decreases cs, |cs|
  {
    if cs == [] {
    } else {
      ApplyConsistent(t, cs[0]);
      ApplyAllConsistent(Apply(t, cs[0]), cs[1..]);
    }
  }

  // -------------------------------------------------------------------
  // What a caller finds afterwards
  // -------------------------------------------------------------------

  /** The edges are the given ones, with the payload given last for each, and the old ones that are kept. */
  ghost predicate EdgesBecome(t: Tables, kept: EdgeKey -> bool, rows: seq<EdgeRow>, u: Tables) {
    forall e ::
      && (e in u.edges <==> Carries(rows, e) || (e in t.edges && kept(e)))
      && (e in u.edges ==> u.edges[e] == if Carries(rows, e) then LastPayload(rows, e) else t.edges[e])
  }

  /** Nodes kept from before, beside those of a batch, read as before up to an owner that the batch rewrites. */
  ghost predicate NodesBecome(t: Tables, kept: string -> bool, batch: seq<CodeNode>, u: Tables) {
    && (forall id :: id in u.nodes <==> Names(batch, id) || (id in t.nodes && kept(id)))
    && (forall id | Names(batch, id) :: ReadsAsBatch(u, batch, id))
    && (forall id | id in t.nodes && kept(id) && !Names(batch, id) :: KeepsReading(t, u, batch, id))
  }

  function OutsideFile(t: Tables, file: string): string -> bool {
    (id: string) => !NodeInFile(t, id, file)
  }

  function NotOfFile(file: string): EdgeKey -> bool {
    (e: EdgeKey) => e.filePath != file
  }

  function AwayFromFile(t: Tables, file: string): EdgeKey -> bool {
    (e: EdgeKey) => !NodeInFile(t, e.source, file) && !NodeInFile(t, e.target, file)
  }

  /** The effect of a command in terms of what is read back, without the operations that bring it about. */
  ghost predicate Effect(t: Tables, c: Command, u: Tables)
    decreases c, 0
  {
    match c
    case Upsert(batch) => NodesBecome(t, _ => true, batch, u) && u.edges == t.edges
    case UpsertEdges(rows) => u.nodes == t.nodes && u.owners == t.owners && EdgesBecome(t, _ => true, rows, u)
    case Replace(file, batch, rows) =>
      NodesBecome(t, OutsideFile(t, file), batch, u) && EdgesBecome(t, NotOfFile(file), rows, u)
    case Delete(file, keepIncoming) =>
      && NodesBecome(t, OutsideFile(t, file), [], u)
      && EdgesBecome(t, if keepIncoming then NotOfFile(file) else AwayFromFile(t, file), [], u)
    case Transaction(body) => EffectAll(t, body, u)
    case ReadScope(_) => u == t
    case Fetch(_, _) => u == t
  }

  /** The effects one after the other. */
  ghost predicate EffectAll(t: Tables, cs: seq<Command>, u: Tables)
    decreases cs, |cs|
  {
    if cs == [] then u == t
    else exists mid :: Consistent(mid) && Effect(t, cs[0], mid) && EffectAll(mid, cs[1..], u)
  }

  lemma UpsertEffect(t: Tables, batch: seq<CodeNode>)
    requires Consistent(t)
    ensures NodesBecome(t, _ => true, batch, UpsertNodes(t, batch)) && UpsertNodes(t, batch).edges == t.edges
  {
    var pass := UpsertOwners(t.owners, batch);
    CoveredByPass(t.owners, batch);
    PutNodesEffect(t.nodes, pass.ids, batch);
    forall id | Names(batch, id) ensures ReadsAsBatch(UpsertNodes(t, batch), batch, id) {
      UpsertReadsBack(t, batch, id);
    }
    forall id | id in t.nodes && !Names(batch, id) ensures KeepsReading(t, UpsertNodes(t, batch), batch, id) {
      UpsertLeavesOthers(t, batch, id);
    }
  }

  lemma EdgesEffect(t: Tables, rows: seq<EdgeRow>)
    ensures EdgesBecome(t, _ => true, rows, t.(edges := PutEdges(t.edges, rows)))
  {
    forall e
      ensures e in PutEdges(t.edges, rows) <==> Carries(rows, e) || e in t.edges
      ensures e in PutEdges(t.edges, rows) ==>
                PutEdges(t.edges, rows)[e] == if Carries(rows, e) then LastPayload(rows, e) else t.edges[e]
    {
      PutEdgesEffect(t.edges, rows, e);
    }
  }

  lemma DeleteEffect(t: Tables, file: string, keepIncoming: bool)
    requires Consistent(t)
    ensures Effect(t, Delete(file, keepIncoming), DeleteFile(t, file, keepIncoming))
  {
    DeleteNodesEffect(t, file, keepIncoming);
    DeleteFileExact(t, file, keepIncoming);
  }

  lemma DeleteNodesEffect(t: Tables, file: string, keepIncoming: bool)
    requires Consistent(t)
    ensures NodesBecome(t, OutsideFile(t, file), [], DeleteFile(t, file, keepIncoming))
  {
    DeleteFileExact(t, file, keepIncoming);
    forall id | id in t.nodes && !NodeInFile(t, id, file) ensures KeepsReading(t, DeleteFile(t, file, keepIncoming), [], id) {
      ConsistentHydrates(t, id);
    }
  }

  /** What a command means is what a caller reads afterwards, for every command and nesting. */
  lemma {:induction false} ApplyHasEffect(t: Tables, c: Command)
    requires Consistent(t)
    ensures Effect(t, c, Apply(t, c))
    decreases c, 0
  {
    match c
    case Upsert(batch) => UpsertEffect(t, batch);
    case UpsertEdges(rows) => EdgesEffect(t, rows);
    case Replace(file, batch, rows) => ReplaceFileExact(t, file, batch, rows);
    case Delete(file, keepIncoming) => DeleteEffect(t, file, keepIncoming);
    case Transaction(body) => ApplyAllHasEffect(t, body);
    case ReadScope(_) =>
    case Fetch(_, _) =>
  }

  lemma {:induction false} ApplyAllHasEffect(t: Tables, cs: seq<Command>)
    requires Consistent(t)
    ensures EffectAll(t, cs, ApplyAll(t, cs))
    decreases cs, |cs|
  {
    if cs == [] {
    } else {
      ApplyConsistent(t, cs[0]);
      ApplyHasEffect(t, cs[0]);
      ApplyAllHasEffect(Apply(t, cs[0]), cs[1..]);
    }
  }

  ghost predicate Selected(t: Tables, column: Column, keys: set<string>, id: string) {
    id in t.nodes && Matches(column, t.nodes[id], keys)
  }

  /** The direct join of the selected node rows with the owner table. */
  ghost function JoinedNodes(t: Tables, column: Column, keys: set<string>): set<CodeNode> {
    set id | id in t.nodes && Selected(t, column, keys, id) && Hydrate(t.owners, t.nodes[id]).Some?
      :: Hydrate(t.owners, t.nodes[id]).value
  }

  ghost predicate Resolvable(t: Tables, column: Column, keys: set<string>) {
    forall id | Selected(t, column, keys, id) :: OwnerFits(t.owners, t.nodes[id])
  }

  function KeySet(keys: seq<string>): set<string> {
    set k | k in keys
  }

  /** A fetch answers with the join in key order, whatever was cached; only an unresolvable owner is an error. */
  ghost predicate FetchOutcome(t: Tables, column: Column, keys: seq<string>, r: Outcome) {
    || r == Failed
    || (r == Corrupt && !Resolvable(t, column, KeySet(keys)))
    || (r.Rows? && Resolvable(t, column, KeySet(keys)) && IsListing(NodeKey, r.nodes, JoinedNodes(t, column, KeySet(keys))))
  }

  /** What a command may answer while a read scope is open: every mutation is refused. */
  ghost predicate ReadOutcome(t: Tables, c: Command, r: Outcome)
    decreases c
  {
    match c
    case Fetch(column, keys) => FetchOutcome(t, column, keys, r)
    case ReadScope(body) =>
      r == Failed ||
      (r.Nested? && |r.outcomes| == |body| && forall k | 0 <= k < |body| :: ReadOutcome(t, body[k], r.outcomes[k]))
    case _ => r == Refused
  }

  ghost predicate Cached(cache: map<nat, OwnerRow>, owners: map<nat, OwnerRow>) {
    forall i | i in cache :: i in owners && cache[i] == owners[i]
  }

  // -------------------------------------------------------------------
  // What commands cost
  // -------------------------------------------------------------------

  /** How many statements it takes to bind n parameters, at most 500 each. */
  function Batches(n: nat): nat {
    (n + SQL_BATCH - 1) / SQL_BATCH
  }

  function BatchEnd(k: nat, n: nat): nat
    requires k <= n
  {
    if k + SQL_BATCH < n then k + SQL_BATCH else n
  }

  lemma BatchesStep(k: nat, n: nat)
    requires k < n
    ensures Batches(n - k) == Batches(n - BatchEnd(k, n)) + 1
  {
  }

  lemma BatchesGrow(m: nat, n: nat)
    requires m <= n
    ensures Batches(m) <= Batches(n)
  {
  }

  /** Lookups of the nodes and of the owners they had, the owner and node rows, the possible orphans. */
  function UpsertCost(batch: seq<CodeNode>): nat {
    Batches(|batch|) + |batch| + |batch| + Batches(2 * |batch|)
  }

  const DELETE_COST := 3

  /** Statements that are enough for a command: a beginning, its rows and batches, a commit. */
  function Cost(t: Tables, c: Command): nat
    requires UniqueOwners(t.owners)
    decreases c, 0
  {
    match c
    case Upsert(batch) => 2 + UpsertCost(batch)
    case UpsertEdges(rows) => 2 + |rows|
    case Replace(_, batch, rows) => 2 + DELETE_COST + UpsertCost(batch) + |rows|
    case Delete(_, _) => 2 + DELETE_COST
    case Transaction(body) => 2 + CostInTurn(t, body)
    case ReadScope(body) => 1 + CostTogether(t, body)
    case Fetch(_, keys) => 1 + Batches(|keys|) + Batches(|t.nodes|)
  }

  function CostInTurn(t: Tables, cs: seq<Command>): nat
    requires UniqueOwners(t.owners)
    decreases cs, |cs|
  {
    if cs == [] then 0 else Cost(t, cs[0]) + CostInTurn(Apply(t, cs[0]), cs[1..])
  }

  function CostTogether(t: Tables, cs: seq<Command>): nat
    requires UniqueOwners(t.owners)
    decreases cs, |cs|
  {
    if cs == [] then 0 else Cost(t, cs[0]) + CostTogether(t, cs[1..])
  }

  /** No statement failed, not even below a read scope. */
  predicate Unfailed(r: Outcome) {
    r != Failed && (r.Nested? ==> forall o | o in r.outcomes :: Unfailed(o))
  }

  /** A part of a run that needs at most n statements: it fails only for want of them, and otherwise leaves the rest. */
  predicate Within(n: nat, was: nat, now: nat, ok: bool) {
    if ok then was <= now + n else was < n
  }

  lemma {:induction false} StoredRowsFit(nodes: map<string, NodeRow>, rows: seq<NodeRow>)
    requires NoRepeats(rows) && forall row | row in rows :: row.node.id in nodes && nodes[row.node.id] == row
    ensures |rows| <= |nodes|
  {
    if rows == [] {
    } else {
      var id := rows[0].node.id;
      assert (nodes - {id}).Keys == nodes.Keys - {id};
      forall row | row in rows[1..] ensures row.node.id in nodes - {id} {
        var k :| 0 <= k < |rows[1..]| && rows[1..][k] == row;
        assert rows[k + 1] == row && rows[0] != rows[k + 1];
      }
      StoredRowsFit(nodes - {id}, rows[1..]);
    }
  }

  function OwnerIds(rows: seq<NodeRow>): set<nat> {
    set row | row in rows && row.ownerId.Some? :: row.ownerId.value
  }

  lemma {:induction false} OwnerIdsFit(rows: seq<NodeRow>)
    ensures |OwnerIds(rows)| <= |rows|
  {
    if rows == [] {
    } else {
      OwnerIdsFit(rows[1..]);
      assert rows == [rows[0]] + rows[1..];
      assert OwnerIds(rows) == OwnerIds(rows[1..]) + if rows[0].ownerId.Some? then {rows[0].ownerId.value} else {};
    }
  }

  lemma {:induction false} KeySetFits(keys: seq<string>)
    ensures |KeySet(keys)| <= |keys|
  {
    if keys == [] {
    } else {
      KeySetFits(keys[1..]);
      assert KeySet(keys) == KeySet(keys[1..]) + {keys[0]};
    }
  }

  method Elements<T(==,!new)>(s: set<T>) returns (q: seq<T>)
    ensures forall x :: x in q <==> x in s
    ensures NoRepeats(q)
    ensures |q| == |s|
  {
    q := [];
    var rest := s;
    while rest != {}
      invariant rest <= s && |q| + |rest| == |s|
      invariant NoRepeats(q)
      invariant forall x :: x in q <==> x in s - rest
      decreases |rest|
    {
      var x :| x in rest;
      assert x !in q;
      rest := rest - {x};
      q := q + [x];
    }
  }

  predicate Stored(t: Tables, row: NodeRow) {
    row.node.id in t.nodes && t.nodes[row.node.id] == row
  }

  function RowsOf(t: Tables, ids: seq<string>): (rows: seq<NodeRow>)
    requires forall id | id in ids :: id in t.nodes
    ensures |rows| == |ids| && forall j | 0 <= j < |ids| :: rows[j] == t.nodes[ids[j]]
  {
    seq(|ids|, j requires 0 <= j < |ids| => assert ids[j] in ids; t.nodes[ids[j]])
  }

  /** The rows are the stored ones with one of the keys, once each. */
  ghost predicate Selects(t: Tables, column: Column, keys: set<string>, rows: seq<NodeRow>) {
    NoRepeats(rows) && forall row :: row in rows <==> Stored(t, row) && Matches(column, row, keys)
  }

  lemma PartsDiffer(keys: seq<string>, k: nat, end: nat)
    requires NoRepeats(keys) && k <= end <= |keys|
    ensures keys[..k] + keys[k..end] == keys[..end] && NoRepeats(keys[..k] + keys[k..end])
  {
  }

  lemma BatchRows(t: Tables, column: Column, before: seq<string>, part: seq<string>,
                  rows: seq<NodeRow>, ids: seq<string>)
    requires WellKeyed(t.nodes) && NoRepeats(before + part) && NoRepeats(ids)
    requires Selects(t, column, KeySet(before), rows)
    requires forall id :: id in ids <==> id in t.nodes && Matches(column, t.nodes[id], KeySet(part))
    ensures Selects(t, column, KeySet(before + part), rows + RowsOf(t, ids))
  {
    var found := RowsOf(t, ids);
    forall j | 0 <= j < |ids| ensures found[j].node.id == ids[j] && Stored(t, found[j]) && found[j] !in rows {
      assert ids[j] in ids;
      var key := if column.ById? then found[j].node.id else found[j].node.filePath;
      assert key in part;
      NoRepeatsAcross(before, part);
    }
    forall row | Stored(t, row) && Matches(column, row, KeySet(part)) ensures row in found {
      assert row.node.id in ids;
      var j :| 0 <= j < |ids| && ids[j] == row.node.id;
      assert found[j] == row;
    }
  }

  ghost predicate HydratedAs(owners: map<nat, OwnerRow>, rows: seq<NodeRow>, nodes: seq<CodeNode>) {
    |rows| == |nodes| && forall k | 0 <= k < |rows| :: Hydrate(owners, rows[k]) == Some(nodes[k])
  }

  /** The existing owners among the first k missing ones are cached. */
  ghost predicate CachedUpTo(missing: seq<nat>, k: nat, owners: map<nat, OwnerRow>, cache: map<nat, OwnerRow>)
    requires k <= |missing|
  {
    forall j | 0 <= j < k && missing[j] in owners :: missing[j] in cache
  }

  function FoundOwners(ids: seq<nat>, owners: map<nat, OwnerRow>): map<nat, OwnerRow> {
    map i | i in ids && i in owners :: owners[i]
  }

  lemma CacheGrows(missing: seq<nat>, k: nat, end: nat, owners: map<nat, OwnerRow>, cache: map<nat, OwnerRow>)
    requires k <= end <= |missing| && CachedUpTo(missing, k, owners, cache) && Cached(cache, owners)
    ensures var after := cache + FoundOwners(missing[k..end], owners);
            CachedUpTo(missing, end, owners, after) && Cached(cache, after) && Cached(after, owners)
  {
    forall j | k <= j < end && missing[j] in owners ensures missing[j] in FoundOwners(missing[k..end], owners) {
      assert missing[k..end][j - k] == missing[j];
    }
  }

  lemma HydratedNext(owners: map<nat, OwnerRow>, rows: seq<NodeRow>, k: nat, nodes: seq<CodeNode>, node: CodeNode)
    requires k < |rows| && HydratedAs(owners, rows[..k], nodes) && Hydrate(owners, rows[k]) == Some(node)
    ensures HydratedAs(owners, rows[..k + 1], nodes + [node])
  {
  }

  lemma OneMore<T>(s: seq<T>, k: nat)
    requires k < |s|
    ensures s[..k + 1] == s[..k] + [s[k]]
  {
  }

  ghost function AllJoined(t: Tables): set<CodeNode> {
    set id | id in t.nodes && Hydrate(t.owners, t.nodes[id]).Some? :: Hydrate(t.owners, t.nodes[id]).value
  }

  predicate KeyedBy(column: Column, keys: set<string>, n: CodeNode) {
    (if column.ById? then n.id else n.filePath) in keys
  }

  lemma JoinedIsFiltered(t: Tables, column: Column, keys: set<string>, x: CodeNode)
    requires WellKeyed(t.nodes)
    ensures x in JoinedNodes(t, column, keys) <==> x in AllJoined(t) && KeyedBy(column, keys, x)
  {
  }

  lemma JoinedKeysDiffer(t: Tables, rows: seq<CodeNode>)
    requires WellKeyed(t.nodes)
    requires forall x | x in rows :: x in AllJoined(t)
    ensures Distinguishes(NodeKey, rows)
  {
  }

  /** A keyed fetch is the full listing filtered by the keys, in the same order. */
  lemma FetchFiltersAll(t: Tables, column: Column, keys: set<string>, all: seq<CodeNode>, fetched: seq<CodeNode>)
    requires WellKeyed(t.nodes)
    requires IsListing(NodeKey, all, AllJoined(t))
    requires IsListing(NodeKey, fetched, JoinedNodes(t, column, keys))
    ensures fetched == Filter(n => KeyedBy(column, keys, n), all)
  {
    var keep := n => KeyedBy(column, keys, n);
    var kept := Filter(keep, all);
    FilterSorted(NodeKey, keep, all);
    forall x | x in kept ensures multiset(kept)[x] == 1 {
      FilterCount(keep, all, x);
    }
    forall x ensures x in kept <==> x in JoinedNodes(t, column, keys) {
      JoinedIsFiltered(t, column, keys, x);
    }
    JoinedKeysDiffer(t, kept);
    ListingUnique(NodeKey, kept, fetched, JoinedNodes(t, column, keys));
  }

  /** Sorting the hydrated rows lists the join of the selected rows. */
  lemma JoinListed(t: Tables, column: Column, keys: set<string>, rows: seq<NodeRow>, nodes: seq<CodeNode>)
    requires Selects(t, column, keys, rows) && HydratedAs(t.owners, rows, nodes) && WellKeyed(t.nodes)
    ensures Resolvable(t, column, keys)
    ensures IsListing(NodeKey, Sort(NodeKey, nodes), JoinedNodes(t, column, keys))
  {
    RowsJoin(t, column, keys, rows, nodes);
    NodesDiffer(t, rows, nodes);
    NoRepeatsDistinct(nodes);
    SortIsListing(NodeKey, nodes, JoinedNodes(t, column, keys));
  }

  lemma RowsJoin(t: Tables, column: Column, keys: set<string>, rows: seq<NodeRow>, nodes: seq<CodeNode>)
    requires Selects(t, column, keys, rows) && HydratedAs(t.owners, rows, nodes) && WellKeyed(t.nodes)
    ensures Resolvable(t, column, keys)
    ensures forall x :: x in nodes <==> x in JoinedNodes(t, column, keys)
  {
    forall k | 0 <= k < |rows| ensures nodes[k].id == rows[k].node.id && nodes[k] in JoinedNodes(t, column, keys) {
      assert rows[k] in rows && Selected(t, column, keys, rows[k].node.id);
    }
    forall id | Selected(t, column, keys, id)
      ensures Hydrate(t.owners, t.nodes[id]).Some? && Hydrate(t.owners, t.nodes[id]).value in nodes
    {
      assert t.nodes[id] in rows;
      var k :| 0 <= k < |rows| && rows[k] == t.nodes[id];
      assert Hydrate(t.owners, rows[k]) == Some(nodes[k]);
    }
  }

  lemma NodesDiffer(t: Tables, rows: seq<NodeRow>, nodes: seq<CodeNode>)
    requires NoRepeats(rows) && HydratedAs(t.owners, rows, nodes) && forall row | row in rows :: Stored(t, row)
    ensures NoRepeats(nodes)
  {
    forall i, j | 0 <= i < j < |nodes| ensures nodes[i] != nodes[j] {
      assert rows[i] in rows && rows[j] in rows;
    }
  }

  function RowKey(row: NodeRow): Key {
    NodeKey(row.node)
  }

  lemma RowsStored(t: Tables, ids: seq<string>, row: NodeRow)
    requires WellKeyed(t.nodes) && forall id :: id in ids <==> id in t.nodes
    ensures row in RowsOf(t, ids) <==> Stored(t, row)
  {
  }

  /** What reading every node may answer: the whole join in full-store order, or an error, corruption only if an owner is missing. */
  ghost predicate AllOutcome(t: Tables, r: Outcome) {
    || r == Failed
    || (r == Corrupt && exists row :: Stored(t, row) && !OwnerFits(t.owners, row))
    || (r.Rows? && IsListing(NodeKey, r.nodes, AllJoined(t)))
  }

  lemma AllListed(t: Tables, ids: seq<string>, rows: seq<NodeRow>, r: Outcome)
    requires WellKeyed(t.nodes) && NoRepeats(ids) && forall id :: id in ids <==> id in t.nodes
    requires rows == Sort(RowKey, RowsOf(t, ids))
    requires || r == Failed
             || (r == Corrupt && exists row | row in rows :: !OwnerFits(t.owners, row))
             || (r.Rows? && HydratedAs(t.owners, rows, r.nodes))
    ensures AllOutcome(t, r)
  {
    var unsorted := RowsOf(t, ids);
    SortSorted(RowKey, unsorted);
    forall row ensures row in rows <==> Stored(t, row) {
      RowsStored(t, ids, row);
      assert row in rows <==> row in multiset(rows);
      assert row in unsorted <==> row in multiset(unsorted);
    }
    if r.Rows? {
      RowsListed(t, unsorted, rows, r.nodes);
    }
  }

  lemma AllResolve(t: Tables, r: Outcome)
    requires Consistent(t) && AllOutcome(t, r)
    ensures r != Corrupt
  {
    forall row | Stored(t, row) ensures OwnerFits(t.owners, row) {
      ConsistentHydrates(t, row.node.id);
    }
  }

  lemma RowsListed(t: Tables, unsorted: seq<NodeRow>, rows: seq<NodeRow>, nodes: seq<CodeNode>)
    requires multiset(unsorted) == multiset(rows) && NoRepeats(unsorted)
    requires SortedBy(RowKey, rows) && HydratedAs(t.owners, rows, nodes) && WellKeyed(t.nodes)
    requires forall row :: row in rows <==> Stored(t, row)
    ensures IsListing(NodeKey, nodes, AllJoined(t))
  {
    NoRepeatsDistinct(unsorted);
    DistinctNoRepeats(unsorted, rows);
    forall i, j | 0 <= i < j < |nodes| ensures nodes[i] != nodes[j] && KeyLeq(NodeKey(nodes[i]), NodeKey(nodes[j])) {
      assert rows[i] in rows && rows[j] in rows && KeyLeq(RowKey(rows[i]), RowKey(rows[j]));
    }
    NoRepeatsDistinct(nodes);
    forall id | id in t.nodes && Hydrate(t.owners, t.nodes[id]).Some? ensures Hydrate(t.owners, t.nodes[id]).value in nodes {
      assert t.nodes[id] in rows;
      var k :| 0 <= k < |rows| && rows[k] == t.nodes[id];
      assert Hydrate(t.owners, rows[k]) == Some(nodes[k]);
    }
    forall k | 0 <= k < |nodes| ensures nodes[k] in AllJoined(t) {
      assert rows[k] in rows;
    }
  }

  /** The commands of a run that reported success. */
  function Succeeded(program: seq<Command>, outcomes: seq<Outcome>): seq<Command>
    requires |program| == |outcomes|
  {
    if program == [] then []
    else
      var n := |program| - 1;
      Succeeded(program[..n], outcomes[..n]) + if outcomes[n].Ok() then [program[n]] else []
  }

  /** Every read of the run answered from the tables that the earlier successful commands had left. */
  ghost predicate ReadsLegal(t: Tables, program: seq<Command>, outcomes: seq<Outcome>)
    requires UniqueOwners(t.owners) && |program| == |outcomes|
  {
    program == [] ||
    var n := |program| - 1;
    && ReadsLegal(t, program[..n], outcomes[..n])
    && (program[n].Fetch? || program[n].ReadScope? ==>
          ReadOutcome(ApplyAll(t, Succeeded(program[..n], outcomes[..n])), program[n], outcomes[n]))
  }

  lemma {:induction false} ApplyAllSnoc(t: Tables, cs: seq<Command>, c: Command)
    requires UniqueOwners(t.owners)
    ensures ApplyAll(t, cs + [c]) == Apply(ApplyAll(t, cs), c)
    decreases |cs|
  {
    if cs == [] {
      assert [c][1..] == [];
      assert ApplyAll(Apply(t, c), []) == Apply(t, c);
      assert cs + [c] == [c];
    } else {
      ApplyAllSnoc(Apply(t, cs[0]), cs[1..], c);
      assert (cs + [c])[1..] == cs[1..] + [c];
    }
  }

  /** One more command extends the successful ones by itself, if it succeeded. */
  lemma SucceededNext(t: Tables, run: seq<Command>, outcomes: seq<Outcome>, c: Command, o: Outcome)
    requires UniqueOwners(t.owners) && |outcomes| == |run|
    ensures var before := ApplyAll(t, Succeeded(run, outcomes));
            ApplyAll(t, Succeeded(run + [c], outcomes + [o])) == if o.Ok() then Apply(before, c) else before
  {
    var done := Succeeded(run, outcomes);
    ApplyAllSnoc(t, done, c);
    assert done + [] == done;
    assert (run + [c])[..|run|] == run && (outcomes + [o])[..|run|] == outcomes;
  }

  /** One more command adds its own obligation on reads. */
  lemma ReadsLegalNext(t: Tables, run: seq<Command>, outcomes: seq<Outcome>, c: Command, o: Outcome)
    requires UniqueOwners(t.owners) && |outcomes| == |run| && ReadsLegal(t, run, outcomes)
    requires c.Fetch? || c.ReadScope? ==> ReadOutcome(ApplyAll(t, Succeeded(run, outcomes)), c, o)
    ensures ReadsLegal(t, run + [c], outcomes + [o])
  {
  }

  /** Every command that had statements enough, counted on the tables it found, succeeded. */
  ghost predicate Afforded(t: Tables, program: seq<Command>, budgets: seq<nat>, outcomes: seq<Outcome>)
    requires UniqueOwners(t.owners) && |program| == |outcomes| == |budgets|
  {
    program == [] ||
    var n := |program| - 1;
    && Afforded(t, program[..n], budgets[..n], outcomes[..n])
    && (budgets[n] >= Cost(ApplyAll(t, Succeeded(program[..n], outcomes[..n])), program[n]) ==>
          outcomes[n].Ok() && Unfailed(outcomes[n]))
  }

  lemma AffordedNext(t: Tables, run: seq<Command>, budgets: seq<nat>, outcomes: seq<Outcome>,
                     c: Command, budget: nat, o: Outcome)
    requires UniqueOwners(t.owners) && |run| == |outcomes| == |budgets| && Afforded(t, run, budgets, outcomes)
    requires budget >= Cost(ApplyAll(t, Succeeded(run, outcomes)), c) ==> o.Ok() && Unfailed(o)
    ensures Afforded(t, run + [c], budgets + [budget], outcomes + [o])
  {
  }

  /**
   A run so far: no corruption, nothing refused, the tables are what the successful commands make them,
   reads were legal, and whatever could be afforded succeeded.
  */
  ghost predicate RanSoFar(t: Tables, run: seq<Command>, budgets: seq<nat>, outcomes: seq<Outcome>, now: Tables)
    requires UniqueOwners(t.owners) && |budgets| == |run|
  {
    && |outcomes| == |run|
    && Afforded(t, run, budgets, outcomes)
    && (forall k | 0 <= k < |run| :: !outcomes[k].Corrupt? && !outcomes[k].Refused?)
    && now == ApplyAll(t, Succeeded(run, outcomes))
    && ReadsLegal(t, run, outcomes)
  }

  lemma RecordNext(t: Tables, run: seq<Command>, budgets: seq<nat>, outcomes: seq<Outcome>, before: Tables,
                   c: Command, budget: nat, o: Outcome, now: Tables)
    requires UniqueOwners(t.owners) && UniqueOwners(before.owners)
    requires |budgets| == |run| && RanSoFar(t, run, budgets, outcomes, before)
    requires budget >= Cost(before, c) ==> o.Ok() && Unfailed(o)
    requires !o.Corrupt? && !o.Refused?
    requires now == if o.Ok() then Apply(before, c) else before
    requires c.Fetch? || c.ReadScope? ==> ReadOutcome(before, c, o)
    ensures RanSoFar(t, run + [c], budgets + [budget], outcomes + [o], now)
  {
    AffordedNext(t, run, budgets, outcomes, c, budget, o);
    SucceededNext(t, run, outcomes, c, o);
    ReadsLegalNext(t, run, outcomes, c, o);
  }

  datatype Entry = Barred | Broken | Joined | Opened

  class Store {
    var tables: Tables
    var savepoint: Option<Tables>                   // the tables to return to, while a transaction is open
    var implRead: Option<map<nat, OwnerRow>>        // the owner cache, while a read scope is open
    var stepsLeft: nat

    ghost predicate Valid()
      reads this
    {
      && UniqueOwners(tables.owners)
      && WellKeyed(tables.nodes)
      && (implRead.Some? ==> Cached(implRead.value, tables.owners))
    }

    constructor ()
      ensures Valid() && Consistent(tables) && savepoint.None? && implRead.None?
    {
      tables := Tables(map[], map[], map[]);
      savepoint, implRead, stepsLeft := None, None, 0;
    }

    method Step() returns (ok: bool)
      modifies this`stepsLeft
      ensures ok <==> old(stepsLeft) > 0
      ensures stepsLeft == if ok then old(stepsLeft) - 1 else 0
    {
      ok := stepsLeft > 0;
      if ok {
        stepsLeft := stepsLeft - 1;
      }
    }

    // -----------------------------------------------------------------
    // Statements of a mutation
    // -----------------------------------------------------------------

    method PreviousImplOwners(batch: seq<CodeNode>) returns (ok: bool, ids: set<nat>)
      modifies this`stepsLeft
      ensures ok ==> ids == PreviousOwners(tables.nodes, batch)
      ensures Within(Batches(|batch|), old(stepsLeft), stepsLeft, ok)
    {
      ids := {};
      var k := 0;
      while k < |batch|
        invariant 0 <= k <= |batch|
        invariant ids == PreviousOwners(tables.nodes, batch[..k])
        invariant old(stepsLeft) + Batches(|batch| - k) <= stepsLeft + Batches(|batch|)
      {
        var end := BatchEnd(k, |batch|);
        BatchesStep(k, |batch|);
        ok := Step();
        if !ok { return; }
        assert batch[..end] == batch[..k] + batch[k..end];
        ids := ids + PreviousOwners(tables.nodes, batch[k..end]);
        k := end;
      }
      assert batch[..k] == batch;
      ok := true;
    }

    method UpsertImplOwners(batch: seq<CodeNode>) returns (ok: bool, ids: map<OwnerKey, nat>)
      requires Valid() && implRead.None?
      modifies this`tables, this`stepsLeft
      ensures Valid()
      ensures ok ==> var pass := UpsertOwners(old(tables).owners, batch);
                     ids == pass.ids && tables == old(tables).(owners := pass.owners)
      ensures Within(|batch|, old(stepsLeft), stepsLeft, ok)
    {
      ids := map[];
      for k := 0 to |batch|
        invariant Valid() && implRead.None?
        invariant old(stepsLeft) <= stepsLeft + k
        invariant OwnerPass(tables.owners, ids) == UpsertOwners(old(tables).owners, batch[..k])
        invariant tables == old(tables).(owners := tables.owners)
      {
        var node := batch[k];
        assert batch[..k + 1] == batch[..k] + [node] && Front(batch[..k + 1]) == batch[..k];
        if node.rustImpl.Some? {
          var key := node.OwnerKey().value;
          if key !in ids {
            ok := Step();
            if !ok { return; }
            var (owners, id) := PutOwner(tables.owners, OwnerRow(node.filePath, node.rustImpl.value));
            tables := tables.(owners := owners);
            ids := ids[key := id];
          }
        }
      }
      assert batch[..|batch|] == batch;
      ok := true;
    }

    method InsertNodes(batch: seq<CodeNode>, ids: map<OwnerKey, nat>) returns (ok: bool)
      requires Valid() && implRead.None? && Covers(ids, batch)
      modifies this`tables, this`stepsLeft
      ensures Valid()
      ensures ok ==> tables == old(tables).(nodes := PutNodes(old(tables).nodes, ids, batch))
      ensures Within(|batch|, old(stepsLeft), stepsLeft, ok)
    {
      for k := 0 to |batch|
        invariant Valid() && implRead.None?
        invariant old(stepsLeft) <= stepsLeft + k
        invariant Covers(ids, batch[..k])
        invariant tables == old(tables).(nodes := PutNodes(old(tables).nodes, ids, batch[..k]))
      {
        ok := Step();
        if !ok { return; }
        assert Front(batch[..k + 1]) == batch[..k];
        tables := tables.(nodes := tables.nodes[batch[k].id := RowFor(ids, batch[k])]);
      }
      assert batch[..|batch|] == batch;
      ok := true;
    }

    method RemoveOrphanImplOwners(candidates: set<nat>) returns (ok: bool)
      requires Valid() && implRead.None?
      modifies this`tables, this`stepsLeft
      ensures Valid()
      ensures ok ==> tables == RemoveOrphans(old(tables), candidates)
      ensures Within(Batches(|candidates|), old(stepsLeft), stepsLeft, ok)
    {
      var ids := Elements(candidates);
      var k := 0;
      while k < |ids|
        invariant 0 <= k <= |ids|
        invariant Valid() && implRead.None?
        invariant tables == RemoveOrphans(old(tables), set i | i in ids[..k])
        invariant old(stepsLeft) + Batches(|ids| - k) <= stepsLeft + Batches(|ids|)
      {
        var end := BatchEnd(k, |ids|);
        BatchesStep(k, |ids|);
        ok := Step();
        if !ok { return; }
        assert ids[..end] == ids[..k] + ids[k..end];
        tables := RemoveOrphans(tables, set i | i in ids[k..end]);
        k := end;
      }
      assert (set i | i in ids[..k]) == candidates;
      ok := true;
    }

    method UpsertNodesBody(batch: seq<CodeNode>) returns (ok: bool)
      requires Valid() && implRead.None?
      modifies this`tables, this`stepsLeft
      ensures Valid()
      ensures ok ==> tables == UpsertNodes(old(tables), batch)
      ensures Within(UpsertCost(batch), old(stepsLeft), stepsLeft, ok)
    {
      var previous, ids;
      ok, previous := PreviousImplOwners(batch);
      if !ok { return; }
      ok, ids := UpsertImplOwners(batch);
      if !ok { return; }
      CoveredByPass(old(tables).owners, batch);
      ok := InsertNodes(batch, ids);
      if !ok { return; }
      CandidatesFit(old(tables), batch);
      BatchesGrow(|previous + ids.Values|, 2 * |batch|);
      ok := RemoveOrphanImplOwners(previous + ids.Values);
    }

    method InsertEdges(rows: seq<EdgeRow>) returns (ok: bool)
      requires Valid() && implRead.None?
      modifies this`tables, this`stepsLeft
      ensures Valid()
      ensures ok ==> tables == old(tables).(edges := PutEdges(old(tables).edges, rows))
      ensures Within(|rows|, old(stepsLeft), stepsLeft, ok)
    {
      for k := 0 to |rows|
        invariant Valid() && implRead.None?
        invariant old(stepsLeft) <= stepsLeft + k
        invariant tables == old(tables).(edges := PutEdges(old(tables).edges, rows[..k]))
      {
        ok := Step();
        if !ok { return; }
        assert rows[..k + 1][..k] == rows[..k];
        tables := tables.(edges := tables.edges[rows[k].key := rows[k].payload]);
      }
      assert rows[..|rows|] == rows;
      ok := true;
    }

    /** The three deletions that start a replacement and make up a file deletion: edges before nodes before owners. */
    method DeleteFileBody(file: string, keepIncoming: bool) returns (ok: bool)
      requires Valid() && implRead.None?
      modifies this`tables, this`stepsLeft
      ensures Valid()
      ensures ok ==> tables == DeleteFile(old(tables), file, keepIncoming)
      ensures Within(DELETE_COST, old(stepsLeft), stepsLeft, ok)
    {
      ok := Step();
      if !ok { return; }
      tables := tables.(edges := tables.edges - (if keepIncoming then EdgesOfFile(tables, file) else EdgesAtFile(tables, file)));
      ok := Step();
      if !ok { return; }
      tables := tables.(nodes := tables.nodes - (set id | id in tables.nodes && NodeInFile(tables, id, file)));
      ok := Step();
      if !ok { return; }
      tables := tables.(owners := tables.owners - (set i | i in tables.owners && tables.owners[i].filePath == file));
    }

    // -----------------------------------------------------------------
    // Reads
    // -----------------------------------------------------------------

    /** SELECT of the rows with one of the keys, in batches of bound parameters and in no particular order. */
    method SelectRows(column: Column, keys: set<string>) returns (ok: bool, rows: seq<NodeRow>)
      requires Valid()
      modifies this`stepsLeft
      ensures ok ==> Selects(tables, column, keys, rows)
      ensures Within(Batches(|keys|), old(stepsLeft), stepsLeft, ok)
    {
      var unique := Elements(keys);
      rows := [];
      var k := 0;
      while k < |unique|
        invariant 0 <= k <= |unique|
        invariant old(stepsLeft) + Batches(|unique| - k) <= stepsLeft + Batches(|unique|)
        invariant Selects(tables, column, KeySet(unique[..k]), rows)
      {
        var end := BatchEnd(k, |unique|);
        BatchesStep(k, |unique|);
        ok := Step();
        if !ok { return; }
        var part := KeySet(unique[k..end]);
        var ids := Elements(set id | id in tables.nodes && Matches(column, tables.nodes[id], part));
        var found := RowsOf(tables, ids);
        PartsDiffer(unique, k, end);
        BatchRows(tables, column, unique[..k], unique[k..end], rows, ids);
        rows := rows + found;
        k := end;
      }
      assert unique[..k] == unique;
      assert KeySet(unique) == keys;
      ok := true;
    }

    /** Owner rows not cached yet, in batches of bound parameters. */
    method FetchOwners(missing: seq<nat>) returns (ok: bool)
      requires Valid() && implRead.Some?
      modifies this`implRead, this`stepsLeft
      ensures Valid() && implRead.Some? && Cached(old(implRead).value, implRead.value)
      ensures ok ==> forall i | i in missing && i in tables.owners :: i in implRead.value
      ensures Within(Batches(|missing|), old(stepsLeft), stepsLeft, ok)
    {
      var k := 0;
      while k < |missing|
        invariant 0 <= k <= |missing|
        invariant old(stepsLeft) + Batches(|missing| - k) <= stepsLeft + Batches(|missing|)
        invariant Valid() && implRead.Some? && Cached(old(implRead).value, implRead.value)
        invariant CachedUpTo(missing, k, tables.owners, implRead.value)
      {
        var end := BatchEnd(k, |missing|);
        BatchesStep(k, |missing|);
        ok := Step();
        if !ok { return; }
        var found := FoundOwners(missing[k..end], tables.owners);
        CacheGrows(missing, k, end, tables.owners, implRead.value);
        implRead := Some(implRead.value + found);
        k := end;
      }
      ok := true;
    }

    method HydrateNodes(pending: seq<NodeRow>) returns (r: Outcome)
      requires Valid() && implRead.Some?
      modifies this`implRead, this`stepsLeft
      ensures Valid() && implRead.Some? && Cached(old(implRead).value, implRead.value)
      ensures || r == Failed
              || (r == Corrupt && exists row | row in pending :: !OwnerFits(tables.owners, row))
              || (r.Rows? && HydratedAs(tables.owners, pending, r.nodes))
      ensures Within(Batches(|pending|), old(stepsLeft), stepsLeft, r != Failed)
    {
      var wanted := OwnerIds(pending);
      var absent := set i | i in wanted && i !in implRead.value;
      var missing := Elements(absent);
      OwnerIdsFit(pending);
      SubsetFits(absent, wanted);
      BatchesGrow(|missing|, |pending|);
      var ok := FetchOwners(missing);
      if !ok { return Failed; }
      var nodes := [];
      for k := 0 to |pending|
        invariant HydratedAs(tables.owners, pending[..k], nodes)
        modifies {}
      {
        var row := pending[k];
        assert row in pending && (row.ownerId.Some? ==> row.ownerId.value in wanted);
        var read := Hydrate(implRead.value, row);
        assert row.ownerId.Some? && row.ownerId.value !in implRead.value ==> row.ownerId.value in missing;
        if read.None? { return Corrupt; }
        HydratedNext(tables.owners, pending, k, nodes, read.value);
        nodes := nodes + [read.value];
      }
      assert pending[..|pending|] == pending;
      r := Rows(nodes);
    }

    // -----------------------------------------------------------------
    // Transactions and read scopes
    // -----------------------------------------------------------------

    /** The start of `with_transaction`: refused during a read scope, joined if one is open, opened otherwise. */
    method Enter() returns (entry: Entry)
      requires Valid()
      modifies this`savepoint, this`stepsLeft
      ensures Valid()
      ensures entry.Barred? <==> implRead.Some?
      ensures entry.Joined? <==> implRead.None? && old(savepoint).Some?
      ensures savepoint == if entry.Opened? then Some(tables) else old(savepoint)
      ensures Within(1, old(stepsLeft), stepsLeft, !entry.Broken?)
    {
      if implRead.Some? { return Barred; }
      if savepoint.Some? { return Joined; }
      var ok := Step();
      if !ok { return Broken; }
      savepoint := Some(tables);
      entry := Opened;
    }

    /** The end of `with_transaction`: an opened transaction commits after success and rolls back otherwise. */
    method Leave(entry: Entry, ok: bool) returns (committed: bool)
      requires entry.Joined? || entry.Opened?
      requires savepoint.Some?
      modifies this`tables, this`savepoint, this`stepsLeft
      ensures committed ==> ok
      ensures entry.Joined? ==> committed == ok && savepoint == old(savepoint) && tables == old(tables)
      ensures entry.Opened? ==> savepoint == None && tables == if committed then old(tables) else old(savepoint).value
      ensures entry.Opened? ==> (committed <==> ok && old(stepsLeft) > 0)
      ensures old(stepsLeft) <= stepsLeft + 1
    {
      if entry.Joined? { return ok; }
      committed := ok;
      if ok {
        committed := Step();
      }
      if !committed {
        tables := savepoint.value;
      }
      savepoint := None;
    }

    /** `read_scope`: the outermost scope owns a fresh cache, and a transaction of its own if none is open. */
    method OpenScope() returns (ok: bool, ownsCache: bool, began: bool)
      requires Valid()
      modifies this
      ensures Valid() && tables == old(tables)
      ensures !ok ==> implRead == old(implRead) && savepoint == old(savepoint)
      ensures ok ==> ownsCache == old(implRead).None? && began == (ownsCache && old(savepoint).None?)
      ensures ok ==> implRead == if ownsCache then Some(map[]) else old(implRead)
      ensures ok ==> savepoint == if began then Some(tables) else old(savepoint)
      ensures Within(1, old(stepsLeft), stepsLeft, ok)
    {
      ok, ownsCache, began := true, implRead.None?, false;
      if ownsCache && savepoint.None? {
        ok := Step();
        if !ok { return; }
        savepoint := Some(tables);
        began := true;
      }
      if ownsCache {
        implRead := Some(map[]);
      }
    }

    /** Dropping a scope: only the owner clears the cache, then its transaction rolls back. */
    method CloseScope(ownsCache: bool, began: bool)
      requires began ==> savepoint.Some?
      modifies this`implRead, this`tables, this`savepoint
      ensures implRead == if ownsCache then None else old(implRead)
      ensures savepoint == if began then None else old(savepoint)
      ensures tables == if began then old(savepoint).value else old(tables)
    {
      if ownsCache {
        implRead := None;
      }
      if began {
        tables := savepoint.value;
        savepoint := None;
      }
    }

    ghost predicate ScopeKept(was: Option<map<nat, OwnerRow>>)
      reads this
    {
      implRead.Some? == was.Some? && (was.Some? ==> Cached(was.value, implRead.value))
    }

    /** Keyed lookup: the cached answer is the direct join, in full-store order, whatever the cache held. */
    method FetchNodes(column: Column, keys: seq<string>) returns (r: Outcome)
      requires Valid()
      modifies this
      ensures Valid() && tables == old(tables) && savepoint == old(savepoint)
      ensures ScopeKept(old(implRead))
      ensures FetchOutcome(tables, column, keys, r)
      ensures Within(Cost(tables, Fetch(column, keys)), old(stepsLeft), stepsLeft, r != Failed)
    {
      var ok, ownsCache, began := OpenScope();
      if !ok { return Failed; }
      r := ReadKeyed(column, keys);
      CloseScope(ownsCache, began);
    }

    method ReadKeyed(column: Column, keys: seq<string>) returns (r: Outcome)
      requires Valid() && implRead.Some?
      modifies this`implRead, this`stepsLeft
      ensures Valid() && implRead.Some? && Cached(old(implRead).value, implRead.value)
      ensures FetchOutcome(tables, column, keys, r)
      ensures Within(Batches(|keys|) + Batches(|tables.nodes|), old(stepsLeft), stepsLeft, r != Failed)
    {
      KeySetFits(keys);
      BatchesGrow(|KeySet(keys)|, |keys|);
      var ok, rows := SelectRows(column, KeySet(keys));
      if !ok { return Failed; }
      StoredRowsFit(tables.nodes, rows);
      BatchesGrow(|rows|, |tables.nodes|);
      r := HydrateNodes(rows);
      if r.Rows? {
        JoinListed(tables, column, KeySet(keys), rows, r.nodes);
        r := Rows(Sort(NodeKey, r.nodes));
      }
    }

    /** Every node, in full-store order. */
    method AllNodes() returns (r: Outcome)
      requires Valid()
      modifies this
      ensures Valid() && tables == old(tables) && savepoint == old(savepoint)
      ensures ScopeKept(old(implRead))
      ensures AllOutcome(tables, r) && (Consistent(tables) ==> r != Corrupt)
      ensures Within(2 + Batches(|tables.nodes|), old(stepsLeft), stepsLeft, r != Failed)
    {
      var ok, ownsCache, began := OpenScope();
      if !ok { return Failed; }
      r := ReadAll();
      if Consistent(tables) {
        AllResolve(tables, r);
      }
      CloseScope(ownsCache, began);
    }

    method ReadAll() returns (r: Outcome)
      requires Valid() && implRead.Some?
      modifies this`implRead, this`stepsLeft
      ensures Valid() && implRead.Some? && Cached(old(implRead).value, implRead.value)
      ensures AllOutcome(tables, r)
      ensures Within(1 + Batches(|tables.nodes|), old(stepsLeft), stepsLeft, r != Failed)
    {
      var ok := Step();
      if !ok { return Failed; }
      var ids := Elements(tables.nodes.Keys);
      var rows := Sort(RowKey, RowsOf(tables, ids));
      r := HydrateNodes(rows);
      AllListed(tables, ids, rows, r);
    }

    /**
     One command. During a read scope nothing changes and every answer is the cache-free one;
     outside, success means exactly the meaning of the command and failure leaves no trace
     unless a caller's transaction is open to undo it.
    */
    method Run(c: Command) returns (r: Outcome)
      requires Valid()
      modifies this
      ensures Valid() && savepoint == old(savepoint) && ScopeKept(old(implRead))
      ensures old(implRead).Some? || c.Fetch? || c.ReadScope? ==> tables == old(tables) && ReadOutcome(tables, c, r)
      ensures old(implRead).None? && r.Ok() ==> tables == Apply(old(tables), c)
      ensures old(implRead).None? && !r.Ok() && old(savepoint).None? ==> tables == old(tables)
      ensures old(implRead).None? ==> !r.Refused? && (Consistent(old(tables)) ==> !r.Corrupt?)
      ensures Within(Cost(old(tables), c), old(stepsLeft), stepsLeft, Unfailed(r))
      decreases c
    {
      match c
      case Fetch(column, keys) =>
        r := FetchNodes(column, keys);
      case ReadScope(body) =>
        var ok, ownsCache, began := OpenScope();
        if !ok { return Failed; }
        var outcomes := RunScoped(body);
        CloseScope(ownsCache, began);
        r := Nested(outcomes);
      case _ =>
        r := Mutate(c);
    }

    /** The closure of a read scope: every command is tried. */
    method RunScoped(body: seq<Command>) returns (outcomes: seq<Outcome>)
      requires Valid() && implRead.Some?
      modifies this
      ensures Valid() && tables == old(tables) && savepoint == old(savepoint) && ScopeKept(old(implRead))
      ensures |outcomes| == |body| && forall j | 0 <= j < |body| :: ReadOutcome(tables, body[j], outcomes[j])
      ensures Within(CostTogether(tables, body), old(stepsLeft), stepsLeft, Unfailed(Nested(outcomes)))
      decreases body
    {
      outcomes := [];
      for k := 0 to |body|
        invariant Valid() && tables == old(tables) && savepoint == old(savepoint) && ScopeKept(old(implRead))
        invariant |outcomes| == k && forall j | 0 <= j < k :: ReadOutcome(tables, body[j], outcomes[j])
        invariant old(stepsLeft) + CostTogether(tables, body[k..]) <= stepsLeft + CostTogether(tables, body)
        invariant Unfailed(Nested(outcomes)) || old(stepsLeft) < CostTogether(tables, body)
      {
        assert body[k..][0] == body[k] && body[k..][1..] == body[k + 1..];
        var o := Run(body[k]);
        outcomes := outcomes + [o];
      }
    }

    method Mutate(c: Command) returns (r: Outcome)
      requires Valid() && !c.Fetch? && !c.ReadScope?
      modifies this
      ensures Valid() && savepoint == old(savepoint) && ScopeKept(old(implRead))
      ensures old(implRead).Some? ==> tables == old(tables) && r == Refused
      ensures old(implRead).None? && r.Ok() ==> tables == Apply(old(tables), c)
      ensures old(implRead).None? && !r.Ok() && old(savepoint).None? ==> tables == old(tables)
      ensures old(implRead).None? ==> !r.Refused? && (Consistent(old(tables)) ==> !r.Corrupt?)
      ensures Within(Cost(old(tables), c), old(stepsLeft), stepsLeft, Unfailed(r))
      decreases c, 1
    {
      var entry := Enter();
      if entry.Barred? { return Refused; }
      if entry.Broken? { return Failed; }
      var ok;
      ok, r := Perform(c);
      var committed := Leave(entry, ok);
      if committed { r := Done; } else if ok { r := Failed; }
    }

    /** The closure of one mutation; `error` is what it reports when it stops early. */
    method Perform(c: Command) returns (ok: bool, error: Outcome)
      requires Valid() && implRead.None? && savepoint.Some? && !c.Fetch? && !c.ReadScope?
      modifies this
      ensures Valid() && savepoint == old(savepoint) && implRead.None?
      ensures ok ==> tables == Apply(old(tables), c)
      ensures !error.Ok() && !error.Refused? && (Consistent(old(tables)) ==> !error.Corrupt?)
      ensures Within(Cost(old(tables), c) - 2, old(stepsLeft), stepsLeft, ok || error != Failed)
      decreases c, 0
    {
      error := Failed;
      match c {
        case Upsert(batch) => ok := UpsertNodesBody(batch);
        case UpsertEdges(rows) => ok := InsertEdges(rows);
        case Replace(file, batch, rows) =>
          ok := DeleteFileBody(file, true);
          if ok { ok := UpsertNodesBody(batch); }
          if ok { ok := InsertEdges(rows); }
        case Delete(file, keepIncoming) => ok := DeleteFileBody(file, keepIncoming);
        case Transaction(body) => ok, error := RunBody(body);
      }
    }

    /** The closure of a transaction: commands in order, up to the first error. */
    method RunBody(body: seq<Command>) returns (ok: bool, error: Outcome)
      requires Valid() && implRead.None? && savepoint.Some?
      modifies this
      ensures Valid() && savepoint == old(savepoint) && implRead.None?
      ensures ok ==> tables == ApplyAll(old(tables), body)
      ensures !error.Ok() && !error.Refused? && (Consistent(old(tables)) ==> !error.Corrupt?)
      ensures Within(CostInTurn(old(tables), body), old(stepsLeft), stepsLeft, ok || error != Failed)
      decreases body
    {
      error := Failed;
      for k := 0 to |body|
        invariant Valid() && savepoint == old(savepoint) && implRead.None?
        invariant ApplyAll(tables, body[k..]) == ApplyAll(old(tables), body)
        invariant Consistent(old(tables)) ==> Consistent(tables)
        invariant error == Failed
        invariant old(stepsLeft) + CostInTurn(tables, body[k..]) <= stepsLeft + CostInTurn(old(tables), body)
      {
        ghost var before := tables;
        var o := Run(body[k]);
        assert body[k..][0] == body[k] && body[k..][1..] == body[k + 1..];
        if !o.Ok() { return false, o; }
        if Consistent(before) {
          ApplyConsistent(before, body[k]);
        }
      }
      ok := true;
    }

    /** A command outside every scope and transaction takes effect whole or not at all. */
    method RunOne(c: Command, budget: nat) returns (o: Outcome)
      requires Valid() && Consistent(tables) && implRead.None? && savepoint.None?
      modifies this
      ensures Valid() && Consistent(tables) && implRead.None? && savepoint.None?
      ensures !o.Corrupt? && !o.Refused?
      ensures tables == if o.Ok() then Apply(old(tables), c) else old(tables)
      ensures o.Ok() ==> Effect(old(tables), c, tables)
      ensures c.Fetch? || c.ReadScope? ==> ReadOutcome(old(tables), c, o)
      ensures budget >= Cost(old(tables), c) ==> o.Ok() && Unfailed(o)
    {
      stepsLeft := budget;
      o := Run(c);
      if o.Ok() {
        ApplyConsistent(old(tables), c);
        ApplyHasEffect(old(tables), c);
      }
    }

    /**
     Any run of the store from consistent tables: commands succeed or fail in any pattern, and
     afterwards the tables are consistent, no owner was ever found missing, and no cache is left.
    */
    method RunProgram(program: seq<Command>, budgets: seq<nat>) returns (outcomes: seq<Outcome>)
      requires Valid() && Consistent(tables) && implRead.None? && savepoint.None?
      requires |budgets| == |program|
      modifies this
      ensures Valid() && Consistent(tables) && implRead.None? && savepoint.None?
      ensures RanSoFar(old(tables), program, budgets, outcomes, tables)
    {
      outcomes := [];
      for k := 0 to |program|
        invariant Valid() && Consistent(tables) && implRead.None? && savepoint.None?
        invariant RanSoFar(old(tables), program[..k], budgets[..k], outcomes, tables)
      {
        ghost var before := tables;
        var o := RunOne(program[k], budgets[k]);
        OneMore(program, k);
        OneMore(budgets, k);
        RecordNext(old(tables), program[..k], budgets[..k], outcomes, before, program[k], budgets[k], o, tables);
        outcomes := outcomes + [o];
      }
      assert program[..|program|] == program && budgets[..|budgets|] == budgets;
    }
  }
}
