/**
 Paged search: exact name matches first, then full-text matches that are not among them, cut
 into pages that continue through cursors. The full-text result on an unchanged store is a
 fixed list of node ids.
*/
module SearchPaging {
  import opened Options
  import opened Ordering
  import opened Bytes
  import opened PageCursors
  import opened Sequences

  const I64_MAX := 0x7FFF_FFFF_FFFF_FFFF
  const U64_MAX := 0xFFFF_FFFF_FFFF_FFFF

  // -------------------------------------------------------------------
  // Exact matches
  // -------------------------------------------------------------------

  datatype NameQuery = NameQuery(name: string, callableOnly: bool)

  /** Every element at its first place only. */
  function FirstOccurrences<T(==)>(s: seq<T>): seq<T> {
    if s == [] then []
    else
      var front := s[..|s| - 1];
      FirstOccurrences(front) + if s[|s| - 1] in front then [] else [s[|s| - 1]]
  }

  function Answers(names: seq<NameQuery>, candidates: NameQuery -> seq<string>): seq<seq<string>> {
    seq(|names|, i requires 0 <= i < |names| => candidates(names[i]))
  }

  lemma {:induction false} FirstOccurrencesFacts<T>(s: seq<T>)
    ensures NoRepeats(FirstOccurrences(s))
    ensures forall x :: x in FirstOccurrences(s) <==> x in s
  {
    if s == [] {
    } else {
      FirstOccurrencesFacts(s[..|s| - 1]);
      assert s == s[..|s| - 1] + [s[|s| - 1]];
    }
  }

  lemma {:induction false} RepeatedTail<T>(s: seq<T>, tail: seq<T>)
    requires forall x | x in tail :: x in s
    ensures FirstOccurrences(s + tail) == FirstOccurrences(s)
  {
    if tail == [] {
      assert s + tail == s;
    } else {
      var front := tail[..|tail| - 1];
      RepeatedTail(s, front);
      assert (s + tail)[..|s + tail| - 1] == s + front;
      assert tail[|tail| - 1] in s;
    }
  }

  lemma AnswersSnoc(names: seq<NameQuery>, k: nat, candidates: NameQuery -> seq<string>)
    requires k < |names|
    ensures Concat(Answers(names[..k + 1], candidates)) == Concat(Answers(names[..k], candidates)) + candidates(names[k])
  {
    assert Answers(names[..k + 1], candidates) == Answers(names[..k], candidates) + [candidates(names[k])];
    ConcatSnoc(Answers(names[..k], candidates), candidates(names[k]));
  }

  /** The candidates of one name that were not seen before. */
  method Unseen(found: seq<string>, seen: set<string>, ghost before: seq<string>) returns (added: seq<string>, seenNow: set<string>)
    requires forall x :: x in seen <==> x in before
    ensures FirstOccurrences(before) + added == FirstOccurrences(before + found)
    ensures forall x :: x in seenNow <==> x in before + found
  {
    added, seenNow := [], seen;
    assert before + found[..0] == before;
    for j := 0 to |found|
      invariant FirstOccurrences(before) + added == FirstOccurrences(before + found[..j])
      invariant forall x :: x in seenNow <==> x in before + found[..j]
    {
      assert before + found[..j + 1] == before + found[..j] + [found[j]];
      assert (before + found[..j + 1])[..|before| + j] == before + found[..j];
      if found[j] !in seenNow {
        seenNow := seenNow + {found[j]};
        added := added + [found[j]];
      }
    }
    assert found[..|found|] == found;
  }

  ghost predicate AllSeen(names: set<NameQuery>, candidates: NameQuery -> seq<string>, seen: set<string>) {
    forall n | n in names :: forall x | x in candidates(n) :: x in seen
  }

  /**
   Candidates of all names in order, without repeated nodes; skipping a name asked before, as the
   loop does, changes nothing.
  */
  method ExactSearchNodes(names: seq<NameQuery>, candidates: NameQuery -> seq<string>) returns (exact: seq<string>)
    ensures exact == FirstOccurrences(Concat(Answers(names, candidates)))
    ensures NoRepeats(exact)
  {
    exact := [];
    var seenNames: set<NameQuery>, seenNodes: set<string> := {}, {};
    ghost var before: seq<string> := [];
    for k := 0 to |names|
      invariant before == Concat(Answers(names[..k], candidates)) && exact == FirstOccurrences(before)
      invariant forall x :: x in seenNodes <==> x in before
      invariant AllSeen(seenNames, candidates, seenNodes)
    {
      var found := candidates(names[k]);
      AnswersSnoc(names, k, candidates);
      if names[k] in seenNames {
        RepeatedTail(before, found);
      } else {
        seenNames := seenNames + {names[k]};
        var added;
        added, seenNodes := Unseen(found, seenNodes, before);
        exact := exact + added;
      }
      before := before + found;
    }
    assert names[..|names|] == names;
    FirstOccurrencesFacts(before);
  }

  // -------------------------------------------------------------------
  // One page
  // -------------------------------------------------------------------

  function Min(a: nat, b: nat): nat {
    if a <= b then a else b
  }

  /** LIMIT and OFFSET, or skip and take. */
  function Slice<T>(s: seq<T>, offset: nat, count: nat): seq<T> {
    if offset >= |s| then [] else s[offset..Min(offset + count, |s|)]
  }

  function NotIn(ids: seq<string>): string -> bool {
    id => id !in ids
  }

  /** The full-text matches that are not exact ones. */
  function Others(exact: seq<string>, fts: seq<string>): seq<string> {
    Filter(NotIn(exact), fts)
  }

  /** The whole result that pages cut up. */
  function Whole(exact: seq<string>, fts: seq<string>): seq<string> {
    exact + Others(exact, fts)
  }

  /** The full-text query: an offset that SQLite cannot bind is an error. */
  function SearchFtsNodes(others: seq<string>, offset: nat, limit: nat): Option<seq<string>> {
    if offset > I64_MAX then None else Some(Slice(others, offset, limit))
  }

  datatype PageResult = Failed | Fetched(nodes: seq<string>, hasMore: bool)

  function FetchPage(exact: seq<string>, others: seq<string>, offset: U64, limit: nat): PageResult {
    var capacity := limit + 1;
    var head := if offset < |exact| then Slice(exact, offset, capacity) else [];
    if |head| < capacity then
      var ftsOffset := if offset < |exact| then 0 else offset - |exact|;
      match SearchFtsNodes(others, ftsOffset, capacity - |head|)
      case None => Failed
      case Some(more) => var nodes := head + more; Fetched(nodes[..Min(limit, |nodes|)], |nodes| > limit)
    else Fetched(head[..limit], true)
  }

  lemma SliceOfConcat<T>(a: seq<T>, b: seq<T>, offset: nat, count: nat)
    ensures Slice(a + b, offset, count) ==
            if offset < |a| then Slice(a, offset, count) + Slice(b, 0, count - |Slice(a, offset, count)|)
            else Slice(b, offset - |a|, count)
  {
  }

  lemma SliceOneMore<T>(s: seq<T>, offset: nat, limit: nat)
    ensures var more := Slice(s, offset, limit + 1);
            && Slice(s, offset, limit) == more[..Min(limit, |more|)]
            && (|more| > limit <==> offset + limit < |s|)
  {
  }

  lemma PageOfCapacity(exact: seq<string>, others: seq<string>, offset: U64, limit: nat)
    requires offset <= |exact| + I64_MAX
    ensures var more := Slice(exact + others, offset, limit + 1);
            FetchPage(exact, others, offset, limit) == Fetched(more[..Min(limit, |more|)], |more| > limit)
  {
    SliceOfConcat(exact, others, offset, limit + 1);
    var head := if offset < |exact| then Slice(exact, offset, limit + 1) else [];
    if |head| == limit + 1 {
      assert head + Slice(others, 0, 0) == head;
    }
  }

  /** A page is the slice of the whole result at its offset, and more is announced exactly when items remain. */
  lemma PageIsSlice(exact: seq<string>, others: seq<string>, offset: U64, limit: nat)
    ensures FetchPage(exact, others, offset, limit) ==
            if offset > |exact| + I64_MAX then Failed
            else Fetched(Slice(exact + others, offset, limit), offset + limit < |exact + others|)
  {
    if offset > |exact| + I64_MAX {
    } else {
      PageOfCapacity(exact, others, offset, limit);
      SliceOneMore(exact + others, offset, limit);
    }
  }

  // -------------------------------------------------------------------
  // Following continuation tokens, for any server that honours them
  // -------------------------------------------------------------------

  datatype Response<C> = Page(results: seq<string>, nextCursor: Option<C>) | StaleCursor | Rejected

  /** Pages where each is the answer to the cursor of the one before, until one carries no cursor. */
  ghost predicate Chain<C(!new)>(respond: Option<C> -> Response<C>, cursor: Option<C>, pages: seq<seq<string>>)
    decreases |pages|
  {
    && pages != []
    && var r := respond(cursor);
    && r.Page? && r.results == pages[0]
    && (if r.nextCursor.None? then |pages| == 1 else Chain(respond, r.nextCursor, pages[1..]))
  }

  /** A cursor that stands for an offset is answered by the slice there and, if items remain, a cursor for the next offset. */
  ghost predicate HonoursAt<C(!new)>(respond: Option<C> -> Response<C>, stands: (Option<C>, nat) -> bool,
                                     whole: seq<string>, limit: nat, cursor: Option<C>, offset: nat)
  {
    offset <= |whole| && stands(cursor, offset) ==>
      var r := respond(cursor);
      && r.Page?
      && r.results == Slice(whole, offset, limit)
      && (r.nextCursor.None? <==> |whole| <= offset + limit)
      && (r.nextCursor.Some? ==> stands(r.nextCursor, offset + limit))
  }

  ghost predicate Honours<C(!new)>(respond: Option<C> -> Response<C>, stands: (Option<C>, nat) -> bool, whole: seq<string>,
                                   limit: nat) {
    forall cursor, offset: nat :: HonoursAt(respond, stands, whole, limit, cursor, offset)
  }

  lemma SliceThenRest<T>(s: seq<T>, offset: nat, count: nat)
    requires offset <= |s|
    ensures Slice(s, offset, count) + s[Min(offset + count, |s|)..] == s[offset..]
  {
  }

  lemma {:induction false} ChainListsRest<C(!new)>(respond: Option<C> -> Response<C>, stands: (Option<C>, nat) -> bool,
                                                   whole: seq<string>, limit: nat, cursor: Option<C>, offset: nat, pages: seq<seq<string>>)
    requires Honours(respond, stands, whole, limit) && offset <= |whole| && stands(cursor, offset)
    requires Chain(respond, cursor, pages)
    ensures Concat(pages) == whole[offset..]
    decreases |pages|
  {
    var r := respond(cursor);
    assert HonoursAt(respond, stands, whole, limit, cursor, offset);
    SliceThenRest(whole, offset, limit);
    if r.nextCursor.Some? {
      ChainListsRest(respond, stands, whole, limit, r.nextCursor, offset + limit, pages[1..]);
    } else {
      assert Concat(pages[1..]) == [];
    }
  }

  lemma {:induction false} ChainExists<C(!new)>(respond: Option<C> -> Response<C>, stands: (Option<C>, nat) -> bool,
                                                whole: seq<string>, limit: nat, cursor: Option<C>, offset: nat) returns (pages: seq<seq<string>>)
    requires Honours(respond, stands, whole, limit) && 0 < limit && offset <= |whole| && stands(cursor, offset)
    ensures Chain(respond, cursor, pages)
    decreases |whole| - offset
  {
    var r := respond(cursor);
    assert HonoursAt(respond, stands, whole, limit, cursor, offset);
    if r.nextCursor.None? {
      pages := [r.results];
    } else {
      var later := ChainExists(respond, stands, whole, limit, r.nextCursor, offset + limit);
      pages := [r.results] + later;
      assert pages[1..] == later;
    }
  }

  lemma ChainsListAll<C(!new)>(respond: Option<C> -> Response<C>, stands: (Option<C>, nat) -> bool, whole: seq<string>, limit: nat)
    requires Honours(respond, stands, whole, limit) && 0 < limit && stands(None, 0)
    ensures exists pages :: Chain(respond, None, pages)
    ensures forall pages | Chain(respond, None, pages) :: Concat(pages) == whole
  {
    var _ := ChainExists(respond, stands, whole, limit, None, 0);
    forall pages | Chain(respond, None, pages) ensures Concat(pages) == whole {
      ChainListsRest(respond, stands, whole, limit, None, 0, pages);
    }
  }

  // -------------------------------------------------------------------
  // The search service honours its cursors
  // -------------------------------------------------------------------

  /** An unchanged store and one repeated request: what every page of a listing has in common. */
  datatype Listing = Listing(sha: seq<Byte> -> Digest, parse: seq<Byte> -> Option<PageCursor>,
                             exact: seq<string>, fts: seq<string>, limit: nat, generation: I64, request: seq<Byte>)
  {
    function Scope(): (s: string)
      ensures IsHash(s) && Lowered(s) == s
    {
      HexRoundTrip(sha(request));
      HexCanonical(EncodeHex(sha(request)));
      EncodeHex(sha(request))
    }

    function CursorAt(offset: U64): (c: PageCursor)
      ensures Encodable(c) && Normal(c) == c
    {
      PageCursor(PAGE_CURSOR_VERSION, generation, offset, Scope(), None)
    }

    function Place(cursor: Option<string>): PageOffset {
      PageOffsetWithSnapshot(sha, parse, cursor, 0, generation, Scope(), None)
    }

    /** The page at an offset, continued by the cursor of the next one. */
    function Answer(place: PageOffset): Response<string> {
      match place
      case Refused => Rejected
      case Stale => StaleCursor
      case Current(offset) =>
        PageOf(FetchPage(exact, Others(exact, fts), offset, limit), CursorText(SaturatingAdd(offset, limit)))
    }

    function CursorText(offset: U64): string {
      Encoded(sha, CursorAt(offset))
    }

    /** The response to a request for the first page or with a cursor. */
    function Respond(cursor: Option<string>): Response<string> {
      Answer(Place(cursor))
    }
  }

  function PageOf(fetched: PageResult, next: string): Response<string> {
    match fetched
    case Failed => Rejected
    case Fetched(nodes, hasMore) => Page(nodes, if hasMore then Some(next) else None)
  }

  function SaturatingAdd(a: U64, b: nat): U64 {
    if a + b <= U64_MAX then a + b else U64_MAX
  }

  lemma CursorPlaces(l: Listing, cursor: Option<string>, offset: U64)
    requires cursor == Some(Encoded(l.sha, l.CursorAt(offset)))
    ensures l.Place(cursor) == Current(offset)
  {
    IssuedCursorContinues(l.sha, l.parse, l.CursorAt(offset), l.generation, l.Scope(), None);
  }

  /** The slice at the offset, and exactly if items remain a cursor, the given one. */
  ghost predicate IsPageOf(whole: seq<string>, offset: nat, limit: nat, next: string, r: Response<string>) {
    && r.Page?
    && r.results == Slice(whole, offset, limit)
    && r.nextCursor == if |whole| <= offset + limit then None else Some(next)
  }

  /** The slice at the offset, and exactly if items remain the cursor of the offset after it. */
  ghost predicate AnsweredAt(l: Listing, whole: seq<string>, offset: nat, r: Response<string>) {
    exists next :: IsPageOf(whole, offset, l.limit, next, r) && (r.nextCursor.Some? ==> CursorOf(l, offset + l.limit, next))
  }

  predicate CursorOf(l: Listing, offset: nat, cursor: string) {
    offset <= U64_MAX && cursor == l.CursorText(offset)
  }

  lemma NextCursorOf(l: Listing, offset: U64, size: nat)
    requires offset + l.limit < size <= I64_MAX
    ensures CursorOf(l, offset + l.limit, l.CursorText(SaturatingAdd(offset, l.limit)))
  {
  }

  lemma PageAnswered(whole: seq<string>, offset: nat, limit: nat, next: string)
    ensures IsPageOf(whole, offset, limit, next, PageOf(Fetched(Slice(whole, offset, limit), offset + limit < |whole|), next))
  {
  }

  lemma AnswerAt(l: Listing, offset: U64)
    requires |Whole(l.exact, l.fts)| <= I64_MAX && offset <= |Whole(l.exact, l.fts)|
    ensures AnsweredAt(l, Whole(l.exact, l.fts), offset, l.Answer(Current(offset)))
  {
    var whole, next := Whole(l.exact, l.fts), l.CursorText(SaturatingAdd(offset, l.limit));
    PageIsSlice(l.exact, Others(l.exact, l.fts), offset, l.limit);
    PageAnswered(whole, offset, l.limit, next);
    if offset + l.limit < |whole| {
      NextCursorOf(l, offset, |whole|);
    }
    assert IsPageOf(whole, offset, l.limit, next, l.Answer(Current(offset)));
  }

  function Responder(l: Listing): Option<string> -> Response<string> {
    cursor => l.Respond(cursor)
  }

  function Stands(l: Listing): (Option<string>, nat) -> bool {
    (cursor: Option<string>, offset: nat) => offset <= U64_MAX && l.Place(cursor) == Current(offset)
  }

  lemma CursorStands(l: Listing, offset: nat, cursor: string)
    requires CursorOf(l, offset, cursor)
    ensures Stands(l)(Some(cursor), offset)
  {
    CursorPlaces(l, Some(cursor), offset);
  }

  lemma StandingIsHonoured(l: Listing, cursor: Option<string>, offset: nat)
    requires |Whole(l.exact, l.fts)| <= I64_MAX
    requires offset <= |Whole(l.exact, l.fts)| && Stands(l)(cursor, offset)
    ensures AnsweredAt(l, Whole(l.exact, l.fts), offset, Responder(l)(cursor))
  {
    AnswerAt(l, offset);
  }

  lemma NextStands(l: Listing, whole: seq<string>, offset: nat, r: Response<string>)
    requires AnsweredAt(l, whole, offset, r)
    ensures r.nextCursor.Some? ==> Stands(l)(r.nextCursor, offset + l.limit)
  {
    var next :| IsPageOf(whole, offset, l.limit, next, r) && (r.nextCursor.Some? ==> CursorOf(l, offset + l.limit, next));
    if r.nextCursor.Some? {
      CursorStands(l, offset + l.limit, next);
    }
  }

  lemma AnsweredHonours(l: Listing, respond: Option<string> -> Response<string>, whole: seq<string>,
                        cursor: Option<string>, offset: nat)
    requires AnsweredAt(l, whole, offset, respond(cursor))
    ensures HonoursAt(respond, Stands(l), whole, l.limit, cursor, offset)
  {
    NextStands(l, whole, offset, respond(cursor));
  }

  lemma SearchHonoursCursors(l: Listing)
    requires |Whole(l.exact, l.fts)| <= I64_MAX
    ensures Honours(Responder(l), Stands(l), Whole(l.exact, l.fts), l.limit)
  {
    var whole := Whole(l.exact, l.fts);
    forall cursor, offset: nat ensures HonoursAt(Responder(l), Stands(l), whole, l.limit, cursor, offset) {
      if offset <= |whole| && Stands(l)(cursor, offset) {
        StandingIsHonoured(l, cursor, offset);
        AnsweredHonours(l, Responder(l), whole, cursor, offset);
      }
    }
  }

  lemma FirstPageStands(l: Listing)
    ensures Stands(l)(None, 0)
  {
    assert l.Place(None) == Current(0);
  }

  /**
   Following cursors from the first page always comes to an end, and any such chain of pages lists
   the whole result in order.
  */
  lemma CursorsListEverything(l: Listing)
    requires 0 < l.limit && |Whole(l.exact, l.fts)| <= I64_MAX
    ensures exists pages :: Chain(Responder(l), None, pages)
    ensures forall pages | Chain(Responder(l), None, pages) :: Concat(pages) == Whole(l.exact, l.fts)
  {
    SearchHonoursCursors(l);
    FirstPageStands(l);
    ChainsListAll(Responder(l), Stands(l), Whole(l.exact, l.fts), l.limit);
  }

  /** The exact matches are distinct, so with distinct full-text matches no item is listed twice. */
  lemma WholeHasNoRepeats(exact: seq<string>, fts: seq<string>)
    requires NoRepeats(exact) && NoRepeats(fts)
    ensures NoRepeats(Whole(exact, fts))
    ensures forall x :: x in Whole(exact, fts) <==> x in exact || x in fts
  {
    var rest := Filter(NotIn(exact), fts);
    FilterNoRepeats(NotIn(exact), fts);
    forall i, j | 0 <= i < j < |exact + rest| ensures (exact + rest)[i] != (exact + rest)[j] {
      if i < |exact| <= j {
        assert (exact + rest)[j] in rest;
      }
    }
  }

  lemma {:induction false} FilterNoRepeats(keep: string -> bool, s: seq<string>)
    requires NoRepeats(s)
    ensures NoRepeats(Filter(keep, s))
  {
    if s == [] {
    } else {
      FilterNoRepeats(keep, s[1..]);
      assert s[0] !in s[1..];
    }
  }
}
