/**
 The fact tables of the graph store: node rows, the normalized Rust-impl owner rows they
 point at, and edge rows. The functions here say what each mutation leaves behind when it
 succeeds; the class in GraphStore.dfy reaches the same tables statement by statement.
 */
module ImplOwners {
  import opened Options

  datatype OwnerKey = OwnerKey(filePath: string, startLine: nat, startColumn: nat, endLine: nat, endColumn: nat)

  datatype Membership = Membership(startLine: nat, startColumn: nat, endLine: nat, endColumn: nat,
                                   receiver: string, traitName: Option<string>)
  {
    function KeyIn(filePath: string): OwnerKey {
      OwnerKey(filePath, startLine, startColumn, endLine, endColumn)
    }
  }

  /** A symbol as callers see it; `facts` stands for the columns that no operation here inspects. */
  datatype CodeNode = CodeNode(id: string, filePath: string, startLine: nat, startColumn: nat,
                               facts: string, rustImpl: Option<Membership>)
  {
    function OwnerKey(): Option<OwnerKey> {
      if rustImpl.None? then None else Some(rustImpl.value.KeyIn(filePath))
    }
  }

  datatype NodeRow = NodeRow(node: CodeNode, ownerId: Option<nat>)

  datatype OwnerRow = OwnerRow(filePath: string, membership: Membership) {
    function Key(): OwnerKey { membership.KeyIn(filePath) }
  }

  datatype EdgeKey = EdgeKey(source: string, target: string, kind: string, filePath: string, line: nat)

  datatype EdgeRow = EdgeRow(key: EdgeKey, payload: string)

  datatype Tables = Tables(nodes: map<string, NodeRow>, owners: map<nat, OwnerRow>, edges: map<EdgeKey, string>)

  // -------------------------------------------------------------------
  // What the tables must satisfy
  // -------------------------------------------------------------------

  /** The UNIQUE constraint on owner rows. */
  ghost predicate UniqueOwners(owners: map<nat, OwnerRow>) {
    forall i, j | i in owners && j in owners && owners[i].Key() == owners[j].Key() :: i == j
  }

  predicate Points(row: NodeRow, id: nat) {
    row.ownerId == Some(id)
  }

  /** Every stored node carries its own id, and its owner, if any, exists and is in the node's file. */
  ghost predicate NodesResolve(t: Tables) {
    forall id | id in t.nodes ::
      var row := t.nodes[id];
      && row.node.id == id
      && row.node.rustImpl.None?
      && (row.ownerId.Some? ==> row.ownerId.value in t.owners &&
                                t.owners[row.ownerId.value].filePath == row.node.filePath)
  }

  predicate Referenced(nodes: map<string, NodeRow>, owner: nat) {
    exists id | id in nodes :: Points(nodes[id], owner)
  }

  ghost predicate NoOrphans(t: Tables) {
    forall i | i in t.owners :: Referenced(t.nodes, i)
  }

  ghost predicate Consistent(t: Tables) {
    UniqueOwners(t.owners) && NodesResolve(t) && NoOrphans(t)
  }

  // -------------------------------------------------------------------
  // INSERT .. ON CONFLICT .. RETURNING id
  // -------------------------------------------------------------------

  ghost predicate IsLargest(m: nat, s: set<nat>) {
    m in s && forall i | i in s :: i <= m
  }

  lemma {:induction false} LargestExists(s: set<nat>)
    requires s != {}
    ensures exists m :: IsLargest(m, s)
  {
    var x :| x in s;
    if s == {x} {
      assert IsLargest(x, s);
    } else {
      var rest := s - {x};
      assert s == rest + {x};
      LargestExists(rest);
      var m :| IsLargest(m, rest);
      assert IsLargest(if x <= m then m else x, s);
    }
  }

  /** SQLite's choice for an INTEGER PRIMARY KEY: one more than the largest id in use, or 1. */
  function NextId(owners: map<nat, OwnerRow>): (id: nat)
    ensures id !in owners
  {
    if |owners.Keys| == 0 then 1
    else
      LargestExists(owners.Keys);
      assert exists m :: m in owners.Keys && forall i | i in owners.Keys :: i <= m by {
        var m :| IsLargest(m, owners.Keys);
      }
      var m :| m in owners.Keys && forall i | i in owners.Keys :: i <= m;
      m + 1
  }

  function PutOwner(owners: map<nat, OwnerRow>, row: OwnerRow): (r: (map<nat, OwnerRow>, nat))
    requires UniqueOwners(owners)
    ensures UniqueOwners(r.0)
    ensures r.0 == owners[r.1 := row]
    ensures r.1 in owners ==> owners[r.1].Key() == row.Key()
  {
    if i :| i in owners && owners[i].Key() == row.Key() then (owners[i := row], i)
    else
      var id := NextId(owners);
      (owners[id := row], id)
  }

  // -------------------------------------------------------------------
  // Upserting a batch of nodes
  // -------------------------------------------------------------------

  function Front<T>(s: seq<T>): seq<T>
    requires s != []
  {
    s[..|s| - 1]
  }

  function Last<T>(s: seq<T>): T
    requires s != []
  {
    s[|s| - 1]
  }

  datatype OwnerPass = OwnerPass(owners: map<nat, OwnerRow>, ids: map<OwnerKey, nat>)

  /** One round of the owner loop: only the first node of the batch with a given key writes the owner row. */
  function OwnerStep(pass: OwnerPass, node: CodeNode): OwnerPass
    requires UniqueOwners(pass.owners)
  {
    if node.rustImpl.Some? && node.OwnerKey().value !in pass.ids then
      var (owners, id) := PutOwner(pass.owners, OwnerRow(node.filePath, node.rustImpl.value));
      OwnerPass(owners, pass.ids[node.OwnerKey().value := id])
    else pass
  }

  function UpsertOwners(owners: map<nat, OwnerRow>, batch: seq<CodeNode>): (r: OwnerPass)
    requires UniqueOwners(owners)
    ensures UniqueOwners(r.owners)
  {
    if batch == [] then OwnerPass(owners, map[]) else OwnerStep(UpsertOwners(owners, Front(batch)), Last(batch))
  }

  ghost predicate HasKey(batch: seq<CodeNode>, key: OwnerKey) {
    exists k | 0 <= k < |batch| :: batch[k].OwnerKey() == Some(key)
  }

  /** The owner record that the batch carries first for a key. */
  ghost function FirstRecord(batch: seq<CodeNode>, key: OwnerKey): Membership
    requires HasKey(batch, key)
  {
    if HasKey(Front(batch), key) then FirstRecord(Front(batch), key) else Last(batch).rustImpl.value
  }

  lemma HasKeySnoc(batch: seq<CodeNode>, node: CodeNode, key: OwnerKey)
    ensures HasKey(batch + [node], key) <==> HasKey(batch, key) || node.OwnerKey() == Some(key)
  {
    var all := batch + [node];
    assert all[|batch|] == node;
    if HasKey(batch, key) {
      var k :| 0 <= k < |batch| && batch[k].OwnerKey() == Some(key);
      assert all[k] == batch[k];
    }
  }

  /** Every key of the batch has an id, and the row under it carries the batch's first record for the key. */
  ghost predicate Recorded(pass: OwnerPass, batch: seq<CodeNode>) {
    && (forall key :: key in pass.ids <==> HasKey(batch, key))
    && (forall key | key in pass.ids ::
          && pass.ids[key] in pass.owners
          && pass.owners[pass.ids[key]] == OwnerRow(key.filePath, FirstRecord(batch, key))
          && pass.owners[pass.ids[key]].Key() == key)
  }

  /** Owner rows keep their id and key, and only rows of the batch are new or rewritten. */
  ghost predicate Preserves(owners: map<nat, OwnerRow>, pass: OwnerPass) {
    && (forall i | i in owners :: i in pass.owners && pass.owners[i].Key() == owners[i].Key())
    && (forall i | i in pass.owners && i !in pass.ids.Values :: i in owners && pass.owners[i] == owners[i])
  }

  lemma OwnerStepRecords(pass: OwnerPass, batch: seq<CodeNode>, node: CodeNode)
    requires UniqueOwners(pass.owners) && Recorded(pass, batch)
    ensures Recorded(OwnerStep(pass, node), batch + [node])
  {
    var all := batch + [node];
    var after := OwnerStep(pass, node);
    assert Front(all) == batch && Last(all) == node;
    forall key ensures HasKey(all, key) <==> HasKey(batch, key) || node.OwnerKey() == Some(key) {
      HasKeySnoc(batch, node, key);
    }
    forall key | key in pass.ids
      ensures after.owners[after.ids[key]] == pass.owners[pass.ids[key]] && FirstRecord(all, key) == FirstRecord(batch, key)
    {
      if after != pass {
        assert after.ids[node.OwnerKey().value] in pass.owners ==>
            pass.owners[after.ids[node.OwnerKey().value]].Key() == node.OwnerKey().value;
      }
    }
  }

  lemma OwnerStepPreserves(owners: map<nat, OwnerRow>, pass: OwnerPass, node: CodeNode)
    requires UniqueOwners(pass.owners) && Preserves(owners, pass)
    ensures Preserves(owners, OwnerStep(pass, node))
  {
    var after := OwnerStep(pass, node);
    if after != pass {
      var key := node.OwnerKey().value;
      assert after.ids[key] in after.ids.Values;
      forall i | i in pass.ids.Values ensures i in after.ids.Values {
        var k :| k in pass.ids && pass.ids[k] == i;
        assert after.ids[k] == i;
      }
    }
  }

  lemma {:induction false} UpsertOwnersEffect(owners: map<nat, OwnerRow>, batch: seq<CodeNode>)
    requires UniqueOwners(owners)
    ensures Recorded(UpsertOwners(owners, batch), batch)
    ensures Preserves(owners, UpsertOwners(owners, batch))
  {
    if batch == [] {
    } else {
      var pass := UpsertOwners(owners, Front(batch));
      assert batch == Front(batch) + [Last(batch)];
      UpsertOwnersEffect(owners, Front(batch));
      OwnerStepRecords(pass, Front(batch), Last(batch));
      OwnerStepPreserves(owners, pass, Last(batch));
    }
  }

  /** The row written for a node once the owner ids of its batch are known. */
  function RowFor(ids: map<OwnerKey, nat>, node: CodeNode): NodeRow
    requires node.rustImpl.Some? ==> node.OwnerKey().value in ids
  {
    NodeRow(node.(rustImpl := None), if node.rustImpl.None? then None else Some(ids[node.OwnerKey().value]))
  }

  ghost predicate Covers(ids: map<OwnerKey, nat>, batch: seq<CodeNode>) {
    forall k | 0 <= k < |batch| && batch[k].rustImpl.Some? :: batch[k].OwnerKey().value in ids
  }

  /** Node rows are stored under their own id. */
  ghost predicate WellKeyed(nodes: map<string, NodeRow>) {
    forall id | id in nodes :: nodes[id].node.id == id
  }

  function PutNodes(nodes: map<string, NodeRow>, ids: map<OwnerKey, nat>, batch: seq<CodeNode>): (r: map<string, NodeRow>)
    requires Covers(ids, batch)
    ensures WellKeyed(nodes) ==> WellKeyed(r)
  {
    if batch == [] then nodes
    else
      assert Last(batch) == batch[|batch| - 1];
      PutNodes(nodes, ids, Front(batch))[Last(batch).id := RowFor(ids, Last(batch))]
  }

  ghost predicate Names(batch: seq<CodeNode>, id: string) {
    exists k | 0 <= k < |batch| :: batch[k].id == id
  }

  /** The last node of the batch with the given id. */
  ghost function LastNamed(batch: seq<CodeNode>, id: string): (node: CodeNode)
    requires Names(batch, id)
    ensures node.id == id && node in batch
  {
    if Last(batch).id == id then Last(batch) else LastNamed(Front(batch), id)
  }

  lemma {:induction false} PutNodesEffect(nodes: map<string, NodeRow>, ids: map<OwnerKey, nat>, batch: seq<CodeNode>)
    requires Covers(ids, batch)
    ensures var r := PutNodes(nodes, ids, batch);
            && (forall id :: id in r <==> id in nodes || Names(batch, id))
            && (forall id | id in r ::
                  if Names(batch, id) then
                    var node := LastNamed(batch, id);
                    (node.rustImpl.Some? ==> node.OwnerKey().value in ids) && r[id] == RowFor(ids, node)
                  else r[id] == nodes[id])
  {
    if batch == [] {
    } else {
      var front, last := Front(batch), Last(batch);
      PutNodesEffect(nodes, ids, front);
      assert batch[|batch| - 1] == last;
      forall id ensures Names(batch, id) <==> Names(front, id) || last.id == id {
        if Names(front, id) {
          var k :| 0 <= k < |front| && front[k].id == id;
          assert batch[k].id == id;
        }
      }
    }
  }

  function PreviousOwners(nodes: map<string, NodeRow>, batch: seq<CodeNode>): set<nat> {
    set n | n in batch && n.id in nodes && nodes[n.id].ownerId.Some? :: nodes[n.id].ownerId.value
  }

  function RemoveOrphans(t: Tables, candidates: set<nat>): Tables {
    t.(owners := t.owners - (set i | i in candidates && !Referenced(t.nodes, i)))
  }

  lemma CoveredByPass(owners: map<nat, OwnerRow>, batch: seq<CodeNode>)
    requires UniqueOwners(owners)
    ensures Covers(UpsertOwners(owners, batch).ids, batch)
  {
    UpsertOwnersEffect(owners, batch);
    forall k | 0 <= k < |batch| && batch[k].rustImpl.Some?
      ensures batch[k].OwnerKey().value in UpsertOwners(owners, batch).ids
    {
      assert HasKey(batch, batch[k].OwnerKey().value);
    }
  }

  lemma {:induction false} PreviousOwnersFit(nodes: map<string, NodeRow>, batch: seq<CodeNode>)
    ensures |PreviousOwners(nodes, batch)| <= |batch|
  {
    if batch == [] {
    } else {
      var n := batch[0];
      PreviousOwnersFit(nodes, batch[1..]);
      assert batch == [n] + batch[1..];
      assert PreviousOwners(nodes, batch) == PreviousOwners(nodes, batch[1..]) +
             if n.id in nodes && nodes[n.id].ownerId.Some? then {nodes[n.id].ownerId.value} else {};
    }
  }

  lemma {:induction false} PassIdsFit(owners: map<nat, OwnerRow>, batch: seq<CodeNode>)
    requires UniqueOwners(owners)
    ensures |UpsertOwners(owners, batch).ids.Values| <= |batch|
    decreases |batch|
  {
    if batch == [] {
    } else {
      PassIdsFit(owners, Front(batch));
      StepIdsFit(UpsertOwners(owners, Front(batch)), Last(batch));
    }
  }

  lemma SubsetFits<T>(a: set<T>, b: set<T>)
    requires a <= b
    ensures |a| <= |b|
  {
    assert b == a + (b - a);
  }

  lemma ValuesGrow<K, V>(m: map<K, V>, key: K, value: V)
    ensures |m[key := value].Values| <= |m.Values| + 1
  {
    SubsetFits(m[key := value].Values, m.Values + {value});
  }

  lemma StepIdsFit(pass: OwnerPass, node: CodeNode)
    requires UniqueOwners(pass.owners)
    ensures |OwnerStep(pass, node).ids.Values| <= |pass.ids.Values| + 1
  {
    var after := OwnerStep(pass, node);
    if after != pass {
      var key := node.OwnerKey().value;
      ValuesGrow(pass.ids, key, after.ids[key]);
    }
  }

  /** An upsert checks at most two owners per node for being orphans. */
  lemma CandidatesFit(t: Tables, batch: seq<CodeNode>)
    requires UniqueOwners(t.owners)
    ensures |PreviousOwners(t.nodes, batch) + UpsertOwners(t.owners, batch).ids.Values| <= 2 * |batch|
  {
    PreviousOwnersFit(t.nodes, batch);
    PassIdsFit(t.owners, batch);
  }

  function UpsertNodes(t: Tables, batch: seq<CodeNode>): Tables
    requires UniqueOwners(t.owners)
  {
    var pass := UpsertOwners(t.owners, batch);
    CoveredByPass(t.owners, batch);
    RemoveOrphans(Tables(PutNodes(t.nodes, pass.ids, batch), pass.owners, t.edges),
                  PreviousOwners(t.nodes, batch) + pass.ids.Values)
  }

  lemma BatchRowResolves(ids: map<OwnerKey, nat>, pass: OwnerPass, batch: seq<CodeNode>, id: string)
    requires Recorded(pass, batch) && Names(batch, id) && LastNamed(batch, id).rustImpl.Some?
    requires ids == pass.ids && LastNamed(batch, id).OwnerKey().value in ids
    ensures var row := RowFor(ids, LastNamed(batch, id));
            && row.ownerId.value in pass.ids.Values
            && row.ownerId.value in pass.owners
            && pass.owners[row.ownerId.value].filePath == row.node.filePath
  {
  }

  lemma RewrittenIsPrevious(nodes: map<string, NodeRow>, batch: seq<CodeNode>, id: string)
    requires Names(batch, id) && id in nodes && nodes[id].ownerId.Some?
    ensures nodes[id].ownerId.value in PreviousOwners(nodes, batch)
  {
  }

  lemma UntouchedStaysReferenced(t: Tables, pass: OwnerPass, batch: seq<CodeNode>, owner: nat)
    requires Covers(pass.ids, batch) && Referenced(t.nodes, owner) && owner !in PreviousOwners(t.nodes, batch)
    ensures Referenced(PutNodes(t.nodes, pass.ids, batch), owner)
  {
    var id :| id in t.nodes && Points(t.nodes[id], owner);
    PutNodesEffect(t.nodes, pass.ids, batch);
    if Names(batch, id) {
      RewrittenIsPrevious(t.nodes, batch, id);
      assert false;
    }
    assert Points(PutNodes(t.nodes, pass.ids, batch)[id], owner);
  }

  /** Upserting any batch, repeated ids and shared owners included, keeps the tables consistent. */
  lemma UpsertNodesConsistent(t: Tables, batch: seq<CodeNode>)
    requires Consistent(t)
    ensures Consistent(UpsertNodes(t, batch))
  {
    var pass := UpsertOwners(t.owners, batch);
    CoveredByPass(t.owners, batch);
    var nodes := PutNodes(t.nodes, pass.ids, batch);
    var u := UpsertNodes(t, batch);
    UpsertOwnersEffect(t.owners, batch);
    forall id | id in nodes
      ensures nodes[id].node.id == id && nodes[id].node.rustImpl.None?
      ensures nodes[id].ownerId.Some? ==> nodes[id].ownerId.value in pass.owners &&
                                          pass.owners[nodes[id].ownerId.value].filePath == nodes[id].node.filePath
    {
      PutNodesEffect(t.nodes, pass.ids, batch);
      if Names(batch, id) {
        if LastNamed(batch, id).rustImpl.Some? {
          BatchRowResolves(pass.ids, pass, batch, id);
        }
      } else if nodes[id].ownerId.Some? {
        var i := nodes[id].ownerId.value;
        assert pass.owners[i].Key() == t.owners[i].Key();
      }
    }
    forall id | id in nodes && nodes[id].ownerId.Some? ensures nodes[id].ownerId.value in u.owners {
      assert Points(nodes[id], nodes[id].ownerId.value);
    }
    forall i | i in u.owners ensures Referenced(nodes, i) {
      if i !in pass.ids.Values && i !in PreviousOwners(t.nodes, batch) {
        UntouchedStaysReferenced(t, pass, batch, i);
      }
    }
  }

  // -------------------------------------------------------------------
  // Reading rows back through the owner table
  // -------------------------------------------------------------------

  /** The owner that a row points to, if any, exists and is in the row's file. */
  predicate OwnerFits(owners: map<nat, OwnerRow>, row: NodeRow) {
    row.ownerId.Some? ==> row.ownerId.value in owners && owners[row.ownerId.value].filePath == row.node.filePath
  }

  /** The join of a node row with its owner; None when the owner is missing or belongs to another file. */
  function Hydrate(owners: map<nat, OwnerRow>, row: NodeRow): Option<CodeNode> {
    match row.ownerId
    case None => Some(row.node)
    case Some(i) =>
      if i in owners && owners[i].filePath == row.node.filePath
      then Some(row.node.(rustImpl := Some(owners[i].membership)))
      else None
  }

  lemma ConsistentHydrates(t: Tables, id: string)
    requires Consistent(t) && id in t.nodes
    ensures OwnerFits(t.owners, t.nodes[id]) && Hydrate(t.owners, t.nodes[id]).Some?
  {
  }

  /** What a node of an upserted batch reads as: its own facts, with the owner record its batch carried first for its key. */
  ghost predicate ReadsAsBatch(u: Tables, batch: seq<CodeNode>, id: string)
    requires Names(batch, id)
  {
    var node := LastNamed(batch, id);
    && id in u.nodes
    && Hydrate(u.owners, u.nodes[id]).Some?
    && var read := Hydrate(u.owners, u.nodes[id]).value;
    && read.(rustImpl := None) == node.(rustImpl := None)
    && (node.rustImpl.None? ==> read == node)
    && (node.rustImpl.Some? ==>
          && HasKey(batch, node.OwnerKey().value)
          && read.rustImpl == Some(FirstRecord(batch, node.OwnerKey().value))
          && (read == node <==> FirstRecord(batch, node.OwnerKey().value) == node.rustImpl.value))
  }

  /**
   A node of an upserted batch is read back with its own facts; its owner record is the one the
   batch carried first for that owner key. So it is read back unchanged if and only if the batch
   gives that record, which is the contract `upsert_impl_owners` puts on its callers.
  */
  lemma UpsertReadsBack(t: Tables, batch: seq<CodeNode>, id: string)
    requires Consistent(t) && Names(batch, id)
    ensures ReadsAsBatch(UpsertNodes(t, batch), batch, id)
  {
    var pass := UpsertOwners(t.owners, batch);
    CoveredByPass(t.owners, batch);
    UpsertOwnersEffect(t.owners, batch);
    PutNodesEffect(t.nodes, pass.ids, batch);
    UpsertNodesConsistent(t, batch);
    ConsistentHydrates(UpsertNodes(t, batch), id);
  }

  /** A node that keeps its row and its owner key, and reads as before unless the batch carries that key. */
  ghost predicate KeepsReading(t: Tables, u: Tables, batch: seq<CodeNode>, id: string)
    requires id in t.nodes
  {
    && id in u.nodes && u.nodes[id] == t.nodes[id]
    && Hydrate(t.owners, t.nodes[id]).Some? && Hydrate(u.owners, u.nodes[id]).Some?
    && var was, read := Hydrate(t.owners, t.nodes[id]).value, Hydrate(u.owners, u.nodes[id]).value;
    && read.OwnerKey() == was.OwnerKey()
    && (read == was || (was.rustImpl.Some? && HasKey(batch, was.OwnerKey().value)))
  }

  /** Nodes outside the batch keep their facts and their owner key; only the contents of a shared owner can change. */
  lemma UpsertLeavesOthers(t: Tables, batch: seq<CodeNode>, id: string)
    requires Consistent(t) && id in t.nodes && !Names(batch, id)
    ensures KeepsReading(t, UpsertNodes(t, batch), batch, id)
  {
    var pass := UpsertOwners(t.owners, batch);
    CoveredByPass(t.owners, batch);
    UpsertOwnersEffect(t.owners, batch);
    PutNodesEffect(t.nodes, pass.ids, batch);
    UpsertNodesConsistent(t, batch);
    ConsistentHydrates(UpsertNodes(t, batch), id);
    ConsistentHydrates(t, id);
    if t.nodes[id].ownerId.Some? {
      var i := t.nodes[id].ownerId.value;
      assert pass.owners[i].Key() == t.owners[i].Key();
      if i in pass.ids.Values {
        var key :| key in pass.ids && pass.ids[key] == i;
        assert pass.owners[i].Key() == key;
      }
    }
  }

  // -------------------------------------------------------------------
  // Whole-file replacement and deletion
  // -------------------------------------------------------------------

  function PutEdges(edges: map<EdgeKey, string>, rows: seq<EdgeRow>): map<EdgeKey, string> {
    if rows == [] then edges else PutEdges(edges, rows[..|rows| - 1])[rows[|rows| - 1].key := rows[|rows| - 1].payload]
  }

  function EdgesOfFile(t: Tables, file: string): set<EdgeKey> {
    set e | e in t.edges && e.filePath == file
  }

  predicate NodeInFile(t: Tables, id: string, file: string) {
    id in t.nodes && t.nodes[id].node.filePath == file
  }

  function EdgesAtFile(t: Tables, file: string): set<EdgeKey> {
    set e | e in t.edges && (NodeInFile(t, e.source, file) || NodeInFile(t, e.target, file))
  }

  function DropNodes(t: Tables, file: string): Tables {
    t.(nodes := t.nodes - (set id | id in t.nodes && NodeInFile(t, id, file)),
       owners := t.owners - (set i | i in t.owners && t.owners[i].filePath == file))
  }

  function DeleteFile(t: Tables, file: string, keepIncoming: bool): Tables {
    DropNodes(t.(edges := t.edges - (if keepIncoming then EdgesOfFile(t, file) else EdgesAtFile(t, file))), file)
  }

  function ReplaceFile(t: Tables, file: string, batch: seq<CodeNode>, rows: seq<EdgeRow>): Tables
    requires UniqueOwners(t.owners)
  {
    var u := UpsertNodes(DeleteFile(t, file, true), batch);
    u.(edges := PutEdges(u.edges, rows))
  }

  lemma DeleteFileConsistent(t: Tables, file: string, keepIncoming: bool)
    requires Consistent(t)
    ensures Consistent(DeleteFile(t, file, keepIncoming))
  {
    var u := DeleteFile(t, file, keepIncoming);
    forall i | i in u.owners ensures Referenced(u.nodes, i) {
      var id :| id in t.nodes && Points(t.nodes[id], i);
      assert Points(u.nodes[id], i);
    }
  }

  lemma ReplaceFileConsistent(t: Tables, file: string, batch: seq<CodeNode>, rows: seq<EdgeRow>)
    requires Consistent(t)
    ensures Consistent(ReplaceFile(t, file, batch, rows))
  {
    DeleteFileConsistent(t, file, true);
    UpsertNodesConsistent(DeleteFile(t, file, true), batch);
  }

  /**
   Deleting a file removes exactly its nodes, leaves every other node reading as before, and either
   keeps the incoming facts of other files or leaves no edge at a deleted node.
  */
  lemma DeleteFileExact(t: Tables, file: string, keepIncoming: bool)
    requires Consistent(t)
    ensures var u := DeleteFile(t, file, keepIncoming);
            && (forall id :: id in u.nodes <==> id in t.nodes && t.nodes[id].node.filePath != file)
            && (forall id | id in u.nodes :: Hydrate(u.owners, u.nodes[id]) == Hydrate(t.owners, t.nodes[id]))
            && (forall e :: e in u.edges <==>
                  (e in t.edges && if keepIncoming then e.filePath != file
                   else (e.source in t.nodes ==> e.source in u.nodes) && (e.target in t.nodes ==> e.target in u.nodes)))
            && (forall e | e in u.edges :: u.edges[e] == t.edges[e])
  {
    var u := DeleteFile(t, file, keepIncoming);
    forall id | id in u.nodes ensures Hydrate(u.owners, u.nodes[id]) == Hydrate(t.owners, t.nodes[id]) {
      assert u.nodes[id] == t.nodes[id];
    }
  }

  ghost predicate Carries(rows: seq<EdgeRow>, e: EdgeKey) {
    exists k | 0 <= k < |rows| :: rows[k].key == e
  }

  /** The payload of the last row with the given key. */
  ghost function LastPayload(rows: seq<EdgeRow>, e: EdgeKey): string
    requires Carries(rows, e)
  {
    var n := |rows| - 1;
    if rows[n].key == e then rows[n].payload
    else
      var k :| 0 <= k < |rows| && rows[k].key == e;
      assert rows[..n][k].key == e;
      LastPayload(rows[..n], e)
  }

  lemma CarriesSnoc(rows: seq<EdgeRow>, e: EdgeKey)
    requires rows != []
    ensures Carries(rows, e) <==> Carries(rows[..|rows| - 1], e) || rows[|rows| - 1].key == e
  {
    if Carries(rows[..|rows| - 1], e) {
      var k :| 0 <= k < |rows| - 1 && rows[..|rows| - 1][k].key == e;
      assert rows[k].key == e;
    }
    if k :| 0 <= k < |rows| - 1 && rows[k].key == e {
      assert rows[..|rows| - 1][k].key == e;
    }
  }

  lemma {:induction false} PutEdgesEffect(edges: map<EdgeKey, string>, rows: seq<EdgeRow>, e: EdgeKey)
    ensures var r := PutEdges(edges, rows);
            && (e in r <==> e in edges || Carries(rows, e))
            && (e in r ==> r[e] == if Carries(rows, e) then LastPayload(rows, e) else edges[e])
  {
    if rows == [] {
    } else {
      PutEdgesEffect(edges, rows[..|rows| - 1], e);
      CarriesSnoc(rows, e);
    }
  }

  /** After a replacement the file holds the last node of each id of the batch and nothing older; nodes of other files stay. */
  lemma ReplaceFileNodes(t: Tables, file: string, batch: seq<CodeNode>, rows: seq<EdgeRow>)
    requires Consistent(t)
    ensures var u := ReplaceFile(t, file, batch, rows);
            && (forall id :: NodeInFile(u, id, file) <==> Names(batch, id) && LastNamed(batch, id).filePath == file)
            && (forall id :: id in u.nodes <==> Names(batch, id) || (id in t.nodes && !NodeInFile(t, id, file)))
            && (forall id | Names(batch, id) :: ReadsAsBatch(u, batch, id))
  {
    var d := DeleteFile(t, file, true);
    DeleteFileConsistent(t, file, true);
    var pass := UpsertOwners(d.owners, batch);
    CoveredByPass(d.owners, batch);
    PutNodesEffect(d.nodes, pass.ids, batch);
    forall id | Names(batch, id) ensures ReadsAsBatch(ReplaceFile(t, file, batch, rows), batch, id) {
      UpsertReadsBack(d, batch, id);
    }
  }

  /** Nodes of other files that the batch does not name read as before, unless the batch carries their owner's key. */
  lemma ReplaceFileKeeps(t: Tables, file: string, batch: seq<CodeNode>, rows: seq<EdgeRow>, id: string)
    requires Consistent(t) && id in t.nodes && !NodeInFile(t, id, file) && !Names(batch, id)
    ensures KeepsReading(t, ReplaceFile(t, file, batch, rows), batch, id)
  {
    DeleteFileConsistent(t, file, true);
    DeleteFileExact(t, file, true);
    UpsertLeavesOthers(DeleteFile(t, file, true), batch, id);
  }

  /** The edges are the new rows, each with the payload given last, and the old ones of other files. */
  lemma ReplaceFileEdges(t: Tables, file: string, batch: seq<CodeNode>, rows: seq<EdgeRow>, e: EdgeKey)
    requires UniqueOwners(t.owners)
    ensures var u := ReplaceFile(t, file, batch, rows);
            && (e in u.edges <==> Carries(rows, e) || (e in t.edges && e.filePath != file))
            && (e in u.edges ==> u.edges[e] == if Carries(rows, e) then LastPayload(rows, e) else t.edges[e])
  {
    PutEdgesEffect(DeleteFile(t, file, true).edges, rows, e);
  }

  /**
   A replacement leaves exactly: the last node of each id of the batch, read as the batch says; the
   nodes of other files it does not name, read as before up to a shared owner that the batch rewrites;
   the new edges with their last payloads, and the old edges of other files.
  */
  lemma ReplaceFileExact(t: Tables, file: string, batch: seq<CodeNode>, rows: seq<EdgeRow>)
    requires Consistent(t)
    ensures var u := ReplaceFile(t, file, batch, rows);
            && (forall id :: NodeInFile(u, id, file) <==> Names(batch, id) && LastNamed(batch, id).filePath == file)
            && (forall id :: id in u.nodes <==> Names(batch, id) || (id in t.nodes && !NodeInFile(t, id, file)))
            && (forall id | Names(batch, id) :: ReadsAsBatch(u, batch, id))
            && (forall id | id in t.nodes && !NodeInFile(t, id, file) && !Names(batch, id) :: KeepsReading(t, u, batch, id))
            && (forall e :: e in u.edges <==> Carries(rows, e) || (e in t.edges && e.filePath != file))
            && (forall e | e in u.edges :: u.edges[e] == if Carries(rows, e) then LastPayload(rows, e) else t.edges[e])
  {
    ReplaceFileNodes(t, file, batch, rows);
    forall id | id in t.nodes && !NodeInFile(t, id, file) && !Names(batch, id)
      ensures KeepsReading(t, ReplaceFile(t, file, batch, rows), batch, id)
    {
      ReplaceFileKeeps(t, file, batch, rows, id);
    }
    var u := ReplaceFile(t, file, batch, rows);
    forall e
      ensures e in u.edges <==> Carries(rows, e) || (e in t.edges && e.filePath != file)
      ensures e in u.edges ==> u.edges[e] == if Carries(rows, e) then LastPayload(rows, e) else t.edges[e]
    {
      ReplaceFileEdges(t, file, batch, rows, e);
    }
  }
}
