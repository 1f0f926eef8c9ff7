/**
 Symbols extracted from one file: captured definitions are deduplicated by name and place, a
 more specific kind replacing a generic one, and symbols that would share an id get a suffix.
*/
module NodeIds {
  import opened Options
  import opened Decimals

  datatype Kind =
    | Function | Class | Method | Interface | TypeAlias | Enum | Variable | Struct | Trait
    | Module | Property | Namespace | Constant | Heading | Endpoint

  function KindName(k: Kind): string {
    match k
    case Function => "function" case Class => "class" case Method => "method" case Interface => "interface"
    case TypeAlias => "type_alias" case Enum => "enum" case Variable => "variable" case Struct => "struct"
    case Trait => "trait" case Module => "module" case Property => "property" case Namespace => "namespace"
    case Constant => "constant" case Heading => "heading" case Endpoint => "endpoint"
  }

  function Specificity(k: Kind): nat {
    match k
    case Variable => 0
    case TypeAlias | Heading | Endpoint => 1
    case Function | Module | Namespace | Property | Constant => 2
    case Class | Struct | Enum | Method => 3
    case Interface | Trait => 4
  }

  /** One captured definition; `facts` stands for everything else that is copied along. */
  datatype Definition = Definition(kind: Kind, name: string, startLine: nat, startColumn: nat,
                                   endLine: nat, endColumn: nat, facts: string)

  datatype Node = Node(id: string, definition: Definition)

  predicate SamePlace(a: Definition, b: Definition) {
    a.name == b.name && a.startLine == b.startLine && a.startColumn == b.startColumn
  }

  // -------------------------------------------------------------------
  // Identifiers
  // -------------------------------------------------------------------

  function MakeNodeId(kind: Kind, file: string, name: string, line: nat): string {
    KindName(kind) + ":" + file + ":" + name + ":" + Decimal(line)
  }

  function DedupKey(file: string, d: Definition): string {
    file + ":" + d.name + ":" + Decimal(d.startLine) + ":" + Decimal(d.startColumn)
  }

  function WithColumn(id: string, column: nat): string {
    id + ":column=" + Decimal(column)
  }

  predicate NoColon(s: string) {
    forall i | 0 <= i < |s| :: s[i] != ':'
  }

  /** The last colon of a text is where it is. */
  lemma LastColon(a: string, x: string, b: string, y: string)
    requires NoColon(x) && NoColon(y) && a + ":" + x == b + ":" + y
    ensures a == b && x == y
  {
    var s := a + ":" + x;
    assert s[|a|] == ':' && s[|b|] == ':';
    forall i | |a| < i < |s| ensures s[i] != ':' {
      assert s[i] == x[i - |a| - 1];
    }
    forall i | |b| < i < |s| ensures s[i] != ':' {
      assert s[i] == (b + ":" + y)[i] == y[i - |b| - 1];
    }
    assert a == s[..|a|] && b == s[..|b|];
    assert x == s[|a| + 1..] && y == s[|b| + 1..];
  }

  /** The first colon of a text is where it is. */
  lemma FirstColon(x: string, a: string, y: string, b: string)
    requires NoColon(x) && NoColon(y) && x + ":" + a == y + ":" + b
    ensures x == y && a == b
  {
    var s := x + ":" + a;
    assert s[|x|] == ':' && s[|y|] == ':';
    forall i | 0 <= i < |x| ensures s[i] != ':' {
      assert s[i] == x[i];
    }
    forall i | 0 <= i < |y| ensures s[i] != ':' {
      assert s[i] == y[i];
    }
    assert x == s[..|x|] && y == s[..|y|];
    assert a == s[|x| + 1..] && b == s[|y| + 1..];
  }

  lemma SamePrefix(p: string, a: string, b: string)
    requires p + a == p + b
    ensures a == b
  {
    assert a == (p + a)[|p|..] && b == (p + b)[|p|..];
  }

  lemma KindNames(a: Kind, b: Kind)
    ensures NoColon(KindName(a))
    ensures KindName(a) == KindName(b) ==> a == b
  {
  }

  /** Keys tell places apart, even when names contain colons. */
  lemma DedupKeyIsPlace(file: string, a: Definition, b: Definition)
    ensures DedupKey(file, a) == DedupKey(file, b) <==> SamePlace(a, b)
  {
    if DedupKey(file, a) == DedupKey(file, b) {
      var na, nb := file + ":" + a.name, file + ":" + b.name;
      LastColon(na + ":" + Decimal(a.startLine), Decimal(a.startColumn), nb + ":" + Decimal(b.startLine), Decimal(b.startColumn));
      LastColon(na, Decimal(a.startLine), nb, Decimal(b.startLine));
      SamePrefix(file + ":", a.name, b.name);
      DecimalInjective(a.startColumn, b.startColumn);
      DecimalInjective(a.startLine, b.startLine);
    }
  }

  lemma IdParts(kind: Kind, file: string, name: string, line: nat)
    ensures MakeNodeId(kind, file, name, line) == (KindName(kind) + ":" + (file + ":" + name)) + ":" + Decimal(line)
  {
    assert KindName(kind) + ":" + file + ":" + name == KindName(kind) + ":" + (file + ":" + name);
  }

  /** Within a file an id determines kind, name and line. */
  lemma NodeIdDetermines(file: string, j: Kind, m: string, k: nat, l: Kind, n: string, o: nat)
    requires MakeNodeId(j, file, m, k) == MakeNodeId(l, file, n, o)
    ensures j == l && m == n && k == o
  {
    var a, b := file + ":" + m, file + ":" + n;
    IdParts(j, file, m, k);
    IdParts(l, file, n, o);
    LastColon(KindName(j) + ":" + a, Decimal(k), KindName(l) + ":" + b, Decimal(o));
    KindNames(j, l);
    KindNames(l, j);
    FirstColon(KindName(j), a, KindName(l), b);
    SamePrefix(file + ":", m, n);
    DecimalInjective(k, o);
  }

  lemma ColumnSuffixDetermines(a: string, c: nat, b: string, d: nat)
    requires WithColumn(a, c) == WithColumn(b, d)
    ensures a == b && c == d
  {
    var x, y := "column=" + Decimal(c), "column=" + Decimal(d);
    assert WithColumn(a, c) == a + ":" + x && WithColumn(b, d) == b + ":" + y;
    LastColon(a, x, b, y);
    SamePrefix("column=", Decimal(c), Decimal(d));
    DecimalInjective(c, d);
  }

  /** A suffixed id is never an unsuffixed one, which ends in a colon and digits. */
  lemma SuffixedIsNew(a: string, c: nat, kind: Kind, file: string, name: string, line: nat)
    ensures WithColumn(a, c) != MakeNodeId(kind, file, name, line)
  {
    if WithColumn(a, c) == MakeNodeId(kind, file, name, line) {
      var x := "column=" + Decimal(c);
      assert WithColumn(a, c) == a + ":" + x;
      assert x[0] == 'c';
      LastColon(a, x, KindName(kind) + ":" + file + ":" + name, Decimal(line));
      assert false;
    }
  }

  // -------------------------------------------------------------------
  // Deduplication
  // -------------------------------------------------------------------

  /** Where a definition of the same place stands, or the end of the list. */
  function PlaceOf(ds: seq<Definition>, d: Definition): (k: nat)
    ensures k <= |ds|
    ensures k < |ds| ==> SamePlace(ds[k], d)
    ensures forall j | 0 <= j < k :: !SamePlace(ds[j], d)
  {
    if ds == [] || SamePlace(ds[0], d) then 0 else 1 + PlaceOf(ds[1..], d)
  }

  function Keep(kept: seq<Definition>, d: Definition): seq<Definition> {
    var k := PlaceOf(kept, d);
    if k == |kept| then kept + [d]
    else if Specificity(d.kind) > Specificity(kept[k].kind) then kept[k := d]
    else kept
  }

  function Dedup(captures: seq<Definition>): seq<Definition> {
    if captures == [] then [] else Keep(Dedup(captures[..|captures| - 1]), captures[|captures| - 1])
  }

  ghost predicate PlacesDiffer(ds: seq<Definition>) {
    forall i, j | 0 <= i < j < |ds| :: !SamePlace(ds[i], ds[j])
  }

  ghost predicate Present(ds: seq<Definition>, d: Definition) {
    exists k :: 0 <= k < |ds| && SamePlace(ds[k], d)
  }

  lemma PlaceFound(ds: seq<Definition>, d: Definition)
    ensures PlaceOf(ds, d) < |ds| <==> Present(ds, d)
  {
  }

  lemma KeepPlaces(kept: seq<Definition>, last: Definition, d: Definition)
    requires PlacesDiffer(kept)
    ensures PlacesDiffer(Keep(kept, last))
    ensures Present(Keep(kept, last), d) <==> Present(kept, d) || SamePlace(last, d)
  {
    var at, all := PlaceOf(kept, last), Keep(kept, last);
    assert SamePlace(all[at], last);
    if Present(kept, d) {
      var k :| 0 <= k < |kept| && SamePlace(kept[k], d);
      assert SamePlace(all[k], d);
    }
    if Present(all, d) {
      var k :| 0 <= k < |all| && SamePlace(all[k], d);
      assert k < |kept| ==> SamePlace(kept[k], d);
    }
  }

  lemma {:induction false} DedupPlaces(captures: seq<Definition>, d: Definition)
    ensures PlacesDiffer(Dedup(captures))
    ensures Present(Dedup(captures), d) <==> Present(captures, d)
  {
    if captures == [] {
    } else {
      var n := |captures| - 1;
      DedupPlaces(captures[..n], d);
      KeepPlaces(Dedup(captures[..n]), captures[n], d);
      if Present(captures, d) {
        var k :| 0 <= k < |captures| && SamePlace(captures[k], d);
        assert k < n ==> SamePlace(captures[..n][k], d);
      }
      if Present(captures[..n], d) {
        var k :| 0 <= k < n && SamePlace(captures[..n][k], d);
        assert SamePlace(captures[k], d);
      }
    }
  }

  /** Capture m is d, beats every earlier capture of its place and is beaten by none. */
  ghost predicate FirstBestAt(captures: seq<Definition>, m: nat, d: Definition) {
    && m < |captures| && captures[m] == d
    && forall i | 0 <= i < |captures| && SamePlace(captures[i], d) ::
         if i < m then Specificity(captures[i].kind) < Specificity(d.kind) else Specificity(captures[i].kind) <= Specificity(d.kind)
  }

  /** What is kept for a place is the first of its captures of the most specific kind. */
  lemma {:induction false} DedupKeepsFirstBest(captures: seq<Definition>, k: nat) returns (m: nat)
    requires k < |Dedup(captures)|
    ensures FirstBestAt(captures, m, Dedup(captures)[k])
  {
    var n := |captures| - 1;
    var front, last := captures[..n], captures[n];
    var kept, all := Dedup(front), Dedup(captures);
    assert forall i | 0 <= i < n :: front[i] == captures[i];
    DedupPlaces(front, last);
    var at := PlaceOf(kept, last);
    if k < |kept| {
      m := DedupKeepsFirstBest(front, k);
      if all[k] != kept[k] {
        m := n;
      } else if SamePlace(last, kept[k]) {
        assert at == k;
      }
    } else {
      m := n;
      PlaceFound(kept, last);
      assert forall i | 0 <= i < n :: !SamePlace(front[i], last);
    }
  }

  lemma PlaceOfIs(ds: seq<Definition>, d: Definition, k: nat)
    requires k <= |ds| && (k < |ds| ==> SamePlace(ds[k], d)) && forall j | 0 <= j < k :: !SamePlace(ds[j], d)
    ensures PlaceOf(ds, d) == k
  {
  }

  lemma PlaceOfSnoc(ds: seq<Definition>, last: Definition, d: Definition)
    ensures PlaceOf(ds + [last], d) ==
            if PlaceOf(ds, d) < |ds| then PlaceOf(ds, d) else if SamePlace(last, d) then |ds| else |ds| + 1
  {
    var k := PlaceOf(ds, d);
    PlaceOfIs(ds + [last], d, if k < |ds| then k else if SamePlace(last, d) then |ds| else |ds| + 1);
  }

  /** Places are kept in the order of their first captures. */
  lemma {:induction false} DedupInOrder(captures: seq<Definition>, i: nat, j: nat)
    requires i < j < |Dedup(captures)|
    ensures PlaceOf(captures, Dedup(captures)[i]) < PlaceOf(captures, Dedup(captures)[j]) < |captures|
  {
    var n := |captures| - 1;
    var front, last := captures[..n], captures[n];
    var kept, all := Dedup(front), Dedup(captures);
    assert captures == front + [last];
    KeptFirstPlace(front, last, i);
    if j < |kept| {
      DedupInOrder(front, i, j);
      KeptFirstPlace(front, last, j);
    } else {
      DedupPlaces(front, last);
      PlaceFound(front, last);
      PlaceFound(kept, last);
      PlaceOfSnoc(front, last, last);
    }
  }

  /** One more capture leaves the first captures of kept places where they were. */
  lemma KeptFirstPlace(front: seq<Definition>, last: Definition, i: nat)
    requires i < |Dedup(front)|
    ensures PlaceOf(front + [last], Keep(Dedup(front), last)[i]) == PlaceOf(front, Dedup(front)[i]) < |front|
  {
    var was, now := Dedup(front)[i], Keep(Dedup(front), last)[i];
    assert Present(Dedup(front), was);
    DedupPlaces(front, was);
    PlaceFound(front, was);
    PlaceOfSnoc(front, last, was);
    SamePlacesAt(front + [last], now, was);
  }

  lemma SamePlacesAt(ds: seq<Definition>, a: Definition, b: Definition)
    requires SamePlace(a, b)
    ensures PlaceOf(ds, a) == PlaceOf(ds, b)
  {
    PlaceOfIs(ds, a, PlaceOf(ds, b));
  }

  // -------------------------------------------------------------------
  // The extraction loops
  // -------------------------------------------------------------------

  function BaseId(file: string, d: Definition): string {
    MakeNodeId(d.kind, file, d.name, d.startLine)
  }

  function BaseIds(file: string, ds: seq<Definition>): (ids: seq<string>)
    ensures |ids| == |ds| && forall k | 0 <= k < |ds| :: ids[k] == BaseId(file, ds[k])
  {
    seq(|ds|, k requires 0 <= k < |ds| => BaseId(file, ds[k]))
  }

  /** The familiar id when it is unique in the file, the one with a column otherwise. */
  function FinalId(file: string, ds: seq<Definition>, k: nat): string
    requires k < |ds|
  {
    var id := BaseId(file, ds[k]);
    if multiset(BaseIds(file, ds))[id] > 1 then WithColumn(id, ds[k].startColumn) else id
  }

  /** The `seen` map, keyed by rendered places, finds what a search for the place would. */
  ghost predicate Indexes(seen: map<string, nat>, file: string, ds: seq<Definition>) {
    && (forall k | 0 <= k < |ds| :: DedupKey(file, ds[k]) in seen && seen[DedupKey(file, ds[k])] == k)
    && (forall key | key in seen :: seen[key] < |ds| && key == DedupKey(file, ds[seen[key]]))
  }

  lemma SeenIsPlace(seen: map<string, nat>, file: string, ds: seq<Definition>, d: Definition)
    requires Indexes(seen, file, ds)
    ensures DedupKey(file, d) in seen <==> PlaceOf(ds, d) < |ds|
    ensures DedupKey(file, d) in seen ==> seen[DedupKey(file, d)] == PlaceOf(ds, d)
  {
    var at := PlaceOf(ds, d);
    if at < |ds| {
      DedupKeyIsPlace(file, ds[at], d);
    }
    if DedupKey(file, d) in seen {
      DedupKeyIsPlace(file, ds[seen[DedupKey(file, d)]], d);
    }
  }

  lemma KeepIndexes(seen: map<string, nat>, file: string, ds: seq<Definition>, d: Definition)
    requires Indexes(seen, file, ds)
    ensures var at := PlaceOf(ds, d);
            Indexes(if at == |ds| then seen[DedupKey(file, d) := at] else seen, file, Keep(ds, d))
  {
    SeenIsPlace(seen, file, ds, d);
    var at := PlaceOf(ds, d);
    if at < |ds| {
      DedupKeyIsPlace(file, ds[at], d);
      IndexesReplaced(seen, file, ds, at, d);
    } else {
      IndexesAdded(seen, file, ds, d);
    }
  }

  lemma IndexesReplaced(seen: map<string, nat>, file: string, ds: seq<Definition>, at: nat, d: Definition)
    requires Indexes(seen, file, ds) && at < |ds| && DedupKey(file, ds[at]) == DedupKey(file, d)
    ensures Indexes(seen, file, ds[at := d])
  {
  }

  lemma IndexesAdded(seen: map<string, nat>, file: string, ds: seq<Definition>, d: Definition)
    requires Indexes(seen, file, ds) && DedupKey(file, d) !in seen
    ensures Indexes(seen[DedupKey(file, d) := |ds|], file, ds + [d])
  {
  }

  method Deduplicate(file: string, captures: seq<Definition>) returns (kept: seq<Definition>)
    ensures kept == Dedup(captures)
  {
    kept := [];
    var seen: map<string, nat> := map[];
    for k := 0 to |captures|
      invariant kept == Dedup(captures[..k]) && Indexes(seen, file, kept)
    {
      var d := captures[k];
      assert captures[..k + 1][..k] == captures[..k];
      SeenIsPlace(seen, file, kept, d);
      KeepIndexes(seen, file, kept, d);
      var key := DedupKey(file, d);
      if key in seen {
        var existing := seen[key];
        if Specificity(d.kind) > Specificity(kept[existing].kind) {
          kept := kept[existing := d];
        }
      } else {
        seen := seen[key := |kept|];
        kept := kept + [d];
      }
    }
    assert captures[..|captures|] == captures;
  }

  method CountIds(ids: seq<string>) returns (counts: map<string, nat>)
    ensures forall id | id in ids :: id in counts && counts[id] == multiset(ids)[id]
  {
    counts := map[];
    for k := 0 to |ids|
      invariant forall id :: id in counts <==> id in ids[..k]
      invariant forall id | id in counts :: counts[id] == multiset(ids[..k])[id]
    {
      assert ids[..k + 1] == ids[..k] + [ids[k]];
      counts := counts[ids[k] := (if ids[k] in counts then counts[ids[k]] else 0) + 1];
    }
    assert ids[..|ids|] == ids;
  }

  /** The symbols of a file under their final ids. */
  function FinalNodes(file: string, ds: seq<Definition>): (r: seq<Node>)
    ensures |r| == |ds| && forall k | 0 <= k < |ds| :: r[k] == Node(FinalId(file, ds, k), ds[k])
  {
    seq(|ds|, k requires 0 <= k < |ds| => Node(FinalId(file, ds, k), ds[k]))
  }

  method AssignId(file: string, ds: seq<Definition>, ids: seq<string>, counts: map<string, nat>, k: nat) returns (node: Node)
    requires k < |ds| && ids == BaseIds(file, ds)
    requires forall id | id in ids :: id in counts && counts[id] == multiset(ids)[id]
    ensures node == FinalNodes(file, ds)[k]
  {
    assert ids[k] in ids;
    var id := if counts[ids[k]] > 1 then WithColumn(ids[k], ds[k].startColumn) else ids[k];
    node := Node(id, ds[k]);
  }

  lemma OneMore<T>(s: seq<T>, k: nat)
    requires k < |s|
    ensures s[..k] + [s[k]] == s[..k + 1]
  {
  }

  /** Ids are counted first and suffixed afterwards. */
  method AssignIds(file: string, ds: seq<Definition>) returns (nodes: seq<Node>)
    ensures nodes == FinalNodes(file, ds)
  {
    var ids := BaseIds(file, ds);
    var counts := CountIds(ids);
    nodes := [];
    for k := 0 to |ds|
      invariant nodes == FinalNodes(file, ds)[..k]
    {
      var node := AssignId(file, ds, ids, counts, k);
      OneMore(FinalNodes(file, ds), k);
      nodes := nodes + [node];
    }
  }

  predicate SameLineAndName(a: Definition, b: Definition) {
    a.kind == b.kind && a.name == b.name && a.startLine == b.startLine
  }

  /** Another symbol of the list has the kind, name and start line of the k-th one. */
  ghost predicate Shared(ds: seq<Definition>, k: nat)
    requires k < |ds|
  {
    exists j | 0 <= j < |ds| :: j != k && SameLineAndName(ds[j], ds[k])
  }

  lemma TwoCounted(s: seq<string>, k: nat)
    requires k < |s| && multiset(s)[s[k]] > 1
    ensures exists j | 0 <= j < |s| :: j != k && s[j] == s[k]
  {
    var others := s[..k] + s[k + 1..];
    assert s == s[..k] + ([s[k]] + s[k + 1..]);
    assert multiset(s) == multiset(others) + multiset{s[k]};
    assert s[k] in others;
    var j :| 0 <= j < |others| && others[j] == s[k];
    assert s[if j < k then j else j + 1] == s[k];
  }

  /** Counting ids finds exactly the symbols that share kind, name and start line with another. */
  lemma CountedIsShared(file: string, ds: seq<Definition>, k: nat)
    requires k < |ds|
    ensures multiset(BaseIds(file, ds))[BaseId(file, ds[k])] > 1 <==> Shared(ds, k)
  {
    var ids := BaseIds(file, ds);
    if multiset(ids)[ids[k]] > 1 {
      TwoCounted(ids, k);
      var j :| 0 <= j < |ids| && j != k && ids[j] == ids[k];
      var a, b := ds[j], ds[k];
      NodeIdDetermines(file, a.kind, a.name, a.startLine, b.kind, b.name, b.startLine);
      assert SameLineAndName(ds[j], ds[k]);
    }
    if Shared(ds, k) {
      var j :| 0 <= j < |ds| && j != k && SameLineAndName(ds[j], ds[k]);
      CountTwo(ids, if j < k then j else k, if j < k then k else j);
    }
  }

  /** The familiar id of the k-th symbol if nothing else in the list would have it, and with its column otherwise. */
  ghost predicate ProperId(file: string, ds: seq<Definition>, k: nat, id: string)
    requires k < |ds|
  {
    var familiar := MakeNodeId(ds[k].kind, file, ds[k].name, ds[k].startLine);
    id == if Shared(ds, k) then familiar + ":column=" + Decimal(ds[k].startColumn) else familiar
  }

  lemma FinalIdIsProper(file: string, ds: seq<Definition>, k: nat)
    requires k < |ds|
    ensures ProperId(file, ds, k, FinalId(file, ds, k))
  {
    CountedIsShared(file, ds, k);
  }

  /**
   The symbols of one file: one per captured place, each under its familiar id if no other one shares
   its kind, name and start line and with its column otherwise, so that no two ids are equal.
  */
  method ExtractNodes(file: string, captures: seq<Definition>) returns (nodes: seq<Node>)
    ensures |nodes| == |Dedup(captures)|
    ensures forall k | 0 <= k < |nodes| ::
              nodes[k].definition == Dedup(captures)[k] && ProperId(file, Dedup(captures), k, nodes[k].id)
    ensures forall i, j | 0 <= i < j < |nodes| :: nodes[i].id != nodes[j].id
  {
    var ds := Deduplicate(file, captures);
    nodes := AssignIds(file, ds);
    forall k | 0 <= k < |nodes| ensures ProperId(file, ds, k, nodes[k].id) {
      FinalIdIsProper(file, ds, k);
    }
    forall i, j | 0 <= i < j < |nodes| ensures nodes[i].id != nodes[j].id {
      FinalIdsDistinct(file, captures, i, j);
    }
  }

  lemma CountTwo(s: seq<string>, i: nat, j: nat)
    requires i < j < |s| && s[i] == s[j]
    ensures multiset(s)[s[i]] > 1
  {
    assert s == s[..j] + s[j..];
    assert s[..j][i] == s[i] && s[j..][0] == s[j];
  }

  /** No two symbols of a file share an id. */
  lemma FinalIdsDistinct(file: string, captures: seq<Definition>, i: nat, j: nat)
    requires i < j < |Dedup(captures)|
    ensures FinalId(file, Dedup(captures), i) != FinalId(file, Dedup(captures), j)
  {
    var ds := Dedup(captures);
    var a, b := ds[i], ds[j];
    DedupPlaces(captures, a);
    SuffixedIsNew(BaseId(file, a), a.startColumn, b.kind, file, b.name, b.startLine);
    SuffixedIsNew(BaseId(file, b), b.startColumn, a.kind, file, a.name, a.startLine);
    if BaseId(file, a) == BaseId(file, b) {
      NodeIdDetermines(file, a.kind, a.name, a.startLine, b.kind, b.name, b.startLine);
      CountTwo(BaseIds(file, ds), i, j);
    }
    if WithColumn(BaseId(file, a), a.startColumn) == WithColumn(BaseId(file, b), b.startColumn) {
      ColumnSuffixDetermines(BaseId(file, a), a.startColumn, BaseId(file, b), b.startColumn);
      assert false;
    }
  }
}
