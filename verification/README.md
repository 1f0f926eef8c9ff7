# CodeFacts: verified models of its hard core

CodeFacts indexes a repository into a SQLite fact store and answers structural questions from it.
This project models the parts of it whose correctness is not visible in one function body, and
proves what they promise:

- **Call paths** (`CallPath.dfy`, `PartialDrain.dfy`): the breadth-first search that takes its queue
  in batches, stops at 5,000 visited symbols and rebuilds a path from a predecessor map. Every answer
  is sound, an exhausted search below the limit proves unreachability, and a path found by full drains
  is shortest. Under partial drains it need not be: a concrete graph of 3,003 symbols gets a path of
  four symbols although one of three exists. Whatever the drains, below the limit the search decides
  reachability.
- **The fact store** (`ImplOwners.dfy`, `GraphStore.dfy`): node rows that point to shared owner rows,
  batch upserts with repeated ids, replacement and deletion of files, nesting transactions, and read
  scopes with an owner cache. Any statement may fail at any moment, and a command with statements
  enough succeeds. Every run keeps the owner invariant, and every answer given through the cache is
  the answer of a direct join.
- **Source positions** (`SourceText.dfy`, `Unicode.dfy`, `SourcePosition.dfy`): two independent
  algorithms, one from byte offsets to (line, UTF-16 column), one that indexes all legal positions,
  define the same set, and it is the protocol's: LSP 3.17, "Text Documents" and "Position", fixes line
  ends and units, RFC 3629 the bytes and RFC 2781 the units of a character.
- **Cursors and paging** (`Decimals.dfy`, `Bytes.dfy`, `PageCursor.dfy`, `SearchPaging.dfy`): the
  binary cursor in unpadded base64 (RFC 4648, sections 3.2 and 4) beside the older hexadecimal one
  (section 8), and pages over the concatenation of exact and full-text matches.
- **LSP framing and sessions** (`Framing.dfy`, `LspSession.dfy`): Content-Length frames over a stream
  that arrives in arbitrary chunks, and the request loop that serves the server's own requests while
  it waits for a reply (LSP 3.17, "Base Protocol"; JSON-RPC 2.0, sections 4 and 5).
- **Interval structure** (`NodeIds.dfy`, `Scopes.dfy`, `MarkdownSections.dfy`, `RetrievalChunks.dfy`,
  `DefinitionExcerpt.dfy`): unique symbol ids, innermost scopes and containers, Markdown sections and
  their stack-built hierarchy, overlapping chunks, bounded excerpts.
- **Batched queries** (`EdgeQueries.dfy`): edges by target names in chunks of 900, and the edges that
  explain a page of related tests.

Code that changes state is a class or a method with loops, proved equal to a specification function;
the theorems are lemmas about those functions. `Ordering.dfy` holds SQL ordering, stable sorting and
filtering; `Sequences.dfy` concatenation; `Options.dfy` the option type. `dafny verify dfyconfig.toml` checks everything.

## Where the code and its comments differ

- The comment at src/service.rs:961-963 says that querying one frontier at a time preserves
  shortest paths. That holds while every drain but the last takes the whole queue, and fails beyond
  (`PartialDrain.PartialDrainLosesShortest`).
- The comments at src/indexer/extractor.rs:599-605 and 641-642 promise a chain of containers,
  outermost first. It is so exactly when containers of equal line span are listed outer before inner
  (`Scopes.ChainIsOutermostFirst`); two containers on one line, the inner one listed first, are chained
  the other way round (`Scopes.SharedLineChainsInnerFirst`).
- The lookup at src/graph/store.rs:1361-1405 reads like one filtered scan. It returns an edge twice
  when its name is asked for in two chunks of 900 (`EdgeQueries.RepeatedNameDuplicates`).
- A member's container is the one with the latest start; of two that start together the first listed
  is taken, even when it is the outer one (`Scopes.SharedStartTakesOuter`).
- A reader of a shared owner sees the record that the batch carried first for its key, so a node is
  read back unchanged exactly when its batch is canonical, as src/graph/store.rs:573-574 demands
  (`ImplOwners.UpsertReadsBack`).

## Model

| member | source | states |
|---|---|---|
| CallPath.ConfirmedOutgoing | src/graph/store.rs:1029-1071 | one drain's query yields exactly the non-heuristic edges of the kind with both ends indexed and a source in the frontier |
| CallPath.OutgoingInOrder | src/graph/store.rs:1029-1071 | they come by caller, callee, file, line and row, each as often as it is stored |
| CallPath.Drain | src/service.rs:957-991 | every drain lowers 2 * (5000 - visited) + queue, and never visits more than 5,000 symbols, so the search ends |
| CallPath.AbsorbEdges | src/service.rs:971-991 | the loop over a drain's edges computes the recursive specification, target and limit exits included |
| CallPath.SearchFacts | src/service.rs:957-993 | from any reachable search state: a found target hangs in a predecessor tree of confirmed calls rooted at the source; an exhausted search below the limit has visited a set closed under calls |
| CallPath.ExhaustedMeansUnreachable | src/service.rs:995-1002 | ending without the target below 5,000 visited symbols means that no path of confirmed calls exists at all |
| CallPath.SearchDecides | src/service.rs:953-1002 | when a set closed under confirmed calls holds the source and fewer than 5,000 symbols, the target is found if and only if a confirmed path exists, full drains or not: a condition on the graph alone |
| CallPath.DrainLevel | src/service.rs:964-991 | a full drain moves the search from exactly the ball of radius d to exactly the ball of radius d + 1, unless it meets the target or the limit |
| CallPath.DrainFindsNext | src/service.rs:964-991 | any drain out of one level, partial or full, meets the target only at the next depth |
| CallPath.FoundAtDistance | src/service.rs:953-993 | when every drain before the one that meets the target took the whole queue, no path to it is shorter than its depth in the predecessor tree |
| CallPath.SearchKeepsLeast | src/service.rs:971-991 | of several confirmed calls between two symbols, the search keeps the first by file, line and row |
| CallPath.ReachableIsFound | src/service.rs:953-993 | a target at distance n is found, by full drains only, whenever the graph's levels below n and the ball of radius n fit the visit limit: a condition on the graph alone |
| CallPath.TracedPath | src/service.rs:1197-1217 | whatever list is traced back through the predecessors is a path of confirmed calls whose length is the depth of its end |
| CallPath.ReconstructPath | src/service.rs:1197-1217 | rebuilding ends, never misses a predecessor, and yields ids and hops in forward order |
| CallPath.FindPath | src/service.rs:945-1011 | the answer is the trivial path, a confirmed path within the response limit, the true length of one beyond it, or none exactly when the search is exhausted; each hop is the first of the calls between its symbols; when every drain before the last took the whole queue the path is shortest among all |
| PartialDrain.PartialDrainLosesShortest | src/service.rs:957-991 | a graph on which the search at limit 5,000 returns a path although a strictly shorter one exists |
| ImplOwners.UpsertOwnersEffect | src/graph/store.rs:565-596 | after the owner pass every key of the batch is stored once, with the record the batch carried first, and no other owner has changed |
| ImplOwners.PutNodesEffect | src/graph/store.rs:754-777 | of repeated ids the last row of the batch stays, rows outside the batch are untouched |
| ImplOwners.UpsertNodesConsistent | src/graph/store.rs:749-788 | any batch keeps the invariant: owner ids exist, lie in the node's own file, keys are unique, no owner is unreferenced |
| ImplOwners.UpsertReadsBack | src/graph/store.rs:749-788 | a batch's node is read back with its own facts and the first owner record of its key; unchanged if and only if that record is its own |
| ImplOwners.UpsertLeavesOthers | src/graph/store.rs:749-788 | a node outside the batch keeps its row and owner key; it reads differently only if the batch carries its owner's key |
| ImplOwners.ReplaceFileConsistent | src/graph/store.rs:813-845 | replacing a file keeps the owner invariant |
| ImplOwners.ReplaceFileExact | src/graph/store.rs:813-845 | afterwards the file holds exactly the last node of each id of the new batch, read back as an upsert would; nodes of other files that the batch does not name stay and read as before, up to a shared owner the batch rewrites; the edges are the new ones, each with the payload given last, and the old ones of other files |
| ImplOwners.DeleteFileConsistent | src/graph/store.rs:848-880 | both deletions keep the owner invariant without looking for orphans |
| ImplOwners.DeleteFileExact | src/graph/store.rs:848-880 | both deletions remove exactly the file's nodes, leave all other nodes reading as before, and keep or remove incoming edges as their names say |
| ImplOwners.ConsistentHydrates | src/graph/store.rs:546-560 | under the invariant no node has a missing or cross-file owner |
| GraphStore.ApplyConsistent | src/graph/store.rs:649-670 | every command, transactions nested to any depth included, keeps the invariant |
| GraphStore.ApplyHasEffect | src/graph/store.rs:649-670 | each command, to any nesting, has the effect a caller reads back: which nodes there are, what each reads as, which edges with which payload |
| GraphStore.Store.FetchOwners | src/graph/store.rs:501-543 | the batches of 500 add every missing owner that exists to the cache, and never a wrong one |
| GraphStore.Store.HydrateNodes | src/graph/store.rs:500-563 | whatever the cache holds, hydration equals the direct join with the owner table, or reports an owner that the table itself lacks |
| GraphStore.Store.UpsertImplOwners | src/graph/store.rs:565-596 | the statement loop stores the owners and returns the ids of the recursive specification |
| GraphStore.Store.PreviousImplOwners | src/graph/store.rs:598-612 | the batches of 500 collect exactly the owners that the rows to be rewritten point to |
| GraphStore.Store.RemoveOrphanImplOwners | src/graph/store.rs:614-620 | the batches of 500 remove exactly the unreferenced candidates |
| GraphStore.Store.DeleteFileBody | src/graph/store.rs:819-831 | edges, nodes and owners of a file go, in that order; a failure in between is seen |
| GraphStore.Store.Enter | src/graph/store.rs:653-663 | a mutation is refused exactly during a read scope, joins exactly an open transaction, and opens one otherwise |
| GraphStore.Store.Leave | src/graph/store.rs:664-670 | an opened transaction commits if and only if its body succeeded and the commit did, and restores the tables otherwise; a joined one leaves both to its owner |
| GraphStore.Store.OpenScope | src/graph/store.rs:483-498 | only the outermost scope gets a fresh cache, and a transaction only if none is open |
| GraphStore.Store.CloseScope | src/graph/store.rs:85-91 | an inner scope's end leaves the outer cache alone; the owner's end clears it |
| GraphStore.Store.FetchNodes | src/graph/store.rs:912-933 | deduplicating, querying in batches of 500, hydrating through the cache and sorting lists the join of the selected rows once each in full-store order; it fails only for want of statements within the stated cost |
| GraphStore.Store.AllNodes | src/graph/store.rs:1482-1490 | every node once, joined, in full-store order; corruption only when an owner is really missing, failure only for want of statements |
| GraphStore.FetchFiltersAll | src/graph/store.rs:912-933 | a keyed fetch is the full listing filtered by the keys, in the same order, for any keys with repeats and misses |
| GraphStore.ListingInOrder | src/graph/store.rs:924-931 | a listing runs by file, line, column and id |
| GraphStore.Store.Run | src/graph/store.rs:478-498 | inside a scope nothing changes, mutations are refused and reads answer as without cache, to any nesting; outside, success is the command's meaning and failure leaves no trace; it fails only if fewer statements than its cost succeed |
| GraphStore.Store.Mutate | src/graph/store.rs:649-670 | the same for one mutation: it takes effect and commits whenever as many statements as its cost succeed, and a failure at any point before is undone |
| GraphStore.Store.RunOne | src/graph/store.rs:649-670 | a command outside every scope and transaction takes its whole effect or none, from consistent tables to consistent tables; with as many statements as its cost it succeeds, and so does every read below it |
| GraphStore.Store.RunProgram | src/graph/store.rs:649-670 | over any run of commands and any pattern of failures: the invariant holds, tables are those of the successful commands alone, whatever had statements enough succeeded, every read was right when given, nothing was found corrupt, and no cache survives |
| SourcePosition.LspPositionAtByte | src/lsp.rs:1442-1466 | no position off a character boundary or beyond 32 bits, otherwise that of the boundary, by one pass over CR, LF and CR LF; what a position is, `SourcePosition.PositionMeans` says |
| SourcePosition.FromSource | src/service.rs:197-235 | the flat index is that of the text's lines, CR, LF and CR LF each ending one and the last one kept even if empty |
| SourcePosition.IndexAccepts | src/service.rs:237-249 | the binary search over a line's slice accepts exactly the character boundaries of that line |
| SourcePosition.PositionMeans | src/lsp.rs:1442-1466 | the position of a boundary is the number of line ends before it and the number of UTF-16 units encoded since the last line break |
| SourcePosition.BoundaryConverted | src/lsp.rs:1442-1466 | the conversion has a value exactly at the byte offsets, in the UTF-8 form of the text, of character boundaries, and it is the line ends before and the UTF-16 units since; no count leaves 32 bits |
| SourcePosition.PositionsAgree | src/service.rs:197-249 | the index accepts exactly the positions, by line ends and UTF-16 units, of character boundaries, and over all byte offsets the conversion returns exactly those |
| SourcePosition.PositionsOrdered | src/lsp.rs:1442-1466 | later boundaries have later positions, except that the one inside a CR LF shares its position with the next |
| Unicode.Utf16RoundTrip | src/service.rs:211 | decoding the UTF-16 units of a text gives the text back |
| Unicode.UnitsCounted | src/service.rs:211 | the units counted per character are as many as the encoded text has |
| Unicode.Utf8Canonical | src/lsp.rs:1442-1443 | bytes decode to a text if and only if they are its UTF-8 form |
| Unicode.DecodedLength | src/service.rs:1613-1615 | the bytes counted per character are as many as the bytes the text was decoded from |
| Bytes.Base64RoundTrip | src/service.rs:1908-1914 | decoding an unpadded base64 text gives back the bytes that were encoded |
| Bytes.Base64Canonical | src/service.rs:1912-1913 | a text that decodes is the encoding of what it decodes to, so trailing bits must be zero |
| Bytes.HexRoundTrip | src/service.rs:1937-1938 | decoding a hexadecimal text gives back the bytes that were encoded |
| PageCursors.EncodePageCursorValue | src/service.rs:1879-1909 | encoding fails exactly on a scope or snapshot that is not 32 bytes of hexadecimal, and lays the fields out at their fixed places |
| PageCursors.CursorRoundTrip | src/service.rs:1879-1943 | an encoded cursor decodes to its normal form; to itself exactly when it has the current version and lower-case hashes |
| PageCursors.CursorIsShort | src/service.rs:1879-1909 | the text has 76 characters, or 119 with a snapshot, all of the base64 alphabet |
| PageCursors.HexIsNeverBinary | src/service.rs:1911-1914 | no hexadecimal text of any length is taken for the binary form |
| PageCursors.LegacyRoundTrip | src/service.rs:1937-1942 | a hexadecimal cursor of the older version decodes to what its JSON says |
| PageCursors.BinaryCanonical | src/service.rs:1911-1935 | a text accepted in the binary form is the one text its cursor encodes to |
| PageCursors.IssuedCursorContinues | src/service.rs:1954-1977 | a request without cursor starts at its own offset; an issued cursor continues its own request on its own snapshot, is stale on another, and is refused by another request and beside an offset |
| SearchPaging.ExactSearchNodes | src/service.rs:1092-1151 | the exact matches are the candidates of all names in order, each at its first place only; skipping a repeated name changes nothing |
| SearchPaging.PageIsSlice | src/service.rs:651-683 | a page is the slice at its offset of the exact matches followed by the other full-text matches, and more is announced exactly when items remain |
| SearchPaging.SearchHonoursCursors | src/service.rs:651-706 | the cursor of a page stands for exactly the offset where the page stopped |
| SearchPaging.CursorsListEverything | src/service.rs:651-706 | following cursors from the first page ends, and every such chain of pages joins to the whole result |
| SearchPaging.WholeHasNoRepeats | src/graph/store.rs:1292-1357 | the whole result holds every match exactly once |
| Framing.ReadHeaderLine | src/lsp.rs:1259-1289 | however the stream is split, the line read is the next line of the stream, or the error its budget or its end calls for |
| Framing.ReadMessage | src/lsp.rs:1291-1334 | however the stream is split, the message read is the first of the stream and the rest is untouched; the header budget never underflows |
| Framing.ReceiveBounds | src/lsp.rs:1291-1334 | an accepted message is a header block of at most 16 KiB, a body of at most 8 MiB, then the rest of the stream |
| Framing.ReadResponses | src/lsp.rs:1228-1244 | the reader thread delivers the messages of the stream up to its clean end or first error |
| Framing.WriteMessage | src/lsp.rs:1246-1257 | a body beyond 8 MiB is refused and nothing written, otherwise exactly one frame is appended |
| Framing.FrameReceived | src/lsp.rs:1246-1334 | a written frame is read back as its body with whatever follows left in place |
| Framing.FrameWithFields | src/lsp.rs:1300-1318 | the same when any other header fields stand before and after the length, within the limit of the header block |
| Framing.LengthErrors | src/lsp.rs:1309-1327 | a second length, a length beyond 8 MiB and a header block without a length are errors |
| Framing.NameInAnyCase | src/lsp.rs:1310 | the name of the length field is recognised in any mixture of cases |
| Framing.FramesRoundTrip | src/lsp.rs:1246-1334 | reading any concatenation of written frames returns the bodies in order and then a clean end |
| Framing.PartialFrame | src/lsp.rs:1259-1334 | a frame cut off after any number of its bytes is an error, neither a message nor a clean end |
| Framing.CutStream | src/lsp.rs:1246-1334 | a stream of frames cut off anywhere yields exactly the bodies whose frames arrived whole, and ends cleanly if and only if the cut lies between frames |
| Framing.Exchange | src/lsp.rs:1216-1244 | the same through the writer and the buffered reader, for every chunking |
| LspSessions.LspSession.ServerRequest | src/lsp.rs:901-975 | a request is answered once, with its own id; a notification is noted and never answered |
| LspSessions.LspSession.AwaitReply | src/lsp.rs:861-898 | the reply is the first message without a method that bears the id, and the answer is what it says; requests before it are answered in order; it is given up only when the stream fails or ends, or no send is left |
| LspSessions.LspSession.Request | src/lsp.rs:854-899 | ids grow by one per request, the request goes out before any answer, an accepted reply is the one awaited, and its result is returned as it is, its error with code and text, by `LspSessions.Replied` |
| LspSessions.InterpretReplies | src/lsp.rs:880-897 | an error, whatever stands beside it, is returned with its 64-bit code and the beginning of its text within 512 bytes; otherwise the result as it is, or none |
| LspSessions.BuiltReplies | src/lsp.rs:877-897 | a built result or error message is accepted as the reply to its id, and is answered with just its result, or with its code and the beginning of its text within 512 bytes |
| LspSessions.BuiltRequest | src/lsp.rs:854-860 | a request goes out with its id, method and parameters |
| LspSessions.LspSession.RequestAll | src/lsp.rs:854-899 | over a session's requests, accepted replies stand at increasing places of the stream and bear consecutive ids, so a late reply is never taken for a later one; the session stops early only where the stream fails or ends, or no send is left |
| LspSessions.AnswersFitRequests | src/lsp.rs:926-973 | each answer has its request's id, is no request itself, and carries what is owed: the configured values, the workspace folders, null, a refused edit, or the error for anything else |
| LspSessions.SettingConfigured | src/lsp.rs:930-950 | the value for a section is the one nested in the configuration under the parts of its dotted name, or null |
| LspSessions.ServerRequestsAreAll | src/lsp.rs:901-925 | the requests answered are exactly the messages with both a method and an id, each as often as it occurs |
| LspSessions.DiagnosedDocuments | src/lsp.rs:901-915 | a document counts as diagnosed exactly when a notification reported its first version while it was watched |
| LspSessions.BusyWasSeen | src/lsp.rs:916-922 | busy counts as seen exactly when some server status was not quiescent |
| LspSessions.LastStatusCounts | src/lsp.rs:916-922 | quiescence and health are those of the last server status |
| LspSessions.NotificationsRead | src/lsp.rs:901-925 | diagnostics count for a watched document's version 1 or for none given; a status is read as written |
| LspSessions.LspSession.PrepareReadiness | src/lsp.rs:977-1000 | messages already waiting are consumed up to the first silent moment, at most sixteen, each request among them is answered once, and success leaves nothing reported before; it fails only with the stream or a send |
| LspSessions.LspSession.WaitForReadiness | src/lsp.rs:1002-1046 | waiting ends at the first moment the provider's verdict is due, with that verdict and every request up to then answered; it is given up only with the stream or a send |
| LspSessions.VerdictMeans | src/lsp.rs:1010-1030 | a verdict is due if and only if the stream has shown it: diagnostics of every document; or a busy status and a last status that is quiescent, healthy or not as the verdict says |
| NodeIds.DedupKeyIsPlace | src/indexer/extractor.rs:391-397 | the rendered key tells apart exactly the places (name, line, column), colons in names included |
| NodeIds.Deduplicate | src/indexer/extractor.rs:387-440 | the loop over captures with its map from keys computes the place-by-place specification |
| NodeIds.DedupPlaces | src/indexer/extractor.rs:387-440 | kept symbols have pairwise different places, and no captured place is lost |
| NodeIds.DedupInOrder | src/indexer/extractor.rs:387-440 | places are kept in the order of their first captures |
| NodeIds.DedupKeepsFirstBest | src/indexer/extractor.rs:387-440 | each place keeps the first of its most specific captures |
| NodeIds.NodeIdDetermines | src/types.rs:471-473 | within a file an id determines kind, name and line |
| NodeIds.SuffixedIsNew | src/indexer/extractor.rs:449-453 | an id with a column suffix is never an id without one |
| NodeIds.ExtractNodes | src/indexer/extractor.rs:387-453 | one symbol per captured place, under pairwise distinct ids: the familiar id if and only if no other symbol shares its kind, name and start line, and that id with its column otherwise |
| NodeIds.CountedIsShared | src/indexer/extractor.rs:443-453 | counting rendered ids finds exactly the symbols that share kind, name and start line with another |
| NodeIds.FinalIdsDistinct | src/indexer/extractor.rs:443-453 | no two symbols of a file share their final id |
| Scopes.FindEnclosingNode | src/indexer/extractor.rs:1403-1427 | the loop chooses the first scope at the point whose (line span, column span) is least |
| Scopes.TightestIsInnermost | src/indexer/extractor.rs:1314-1337 | the scope of least span lies inside all others at the point if and only if some scope does |
| Scopes.NestedScopesHaveInnermost | src/indexer/extractor.rs:1403-1427 | in properly nested source it always does |
| Scopes.ContainerOf | src/indexer/extractor.rs:691-705 | the container chosen for a member holds it, starts last of all that do, and is the first of those; none only if none holds it |
| Scopes.ExtractContainmentEdges | src/indexer/extractor.rs:672-717 | each method gets one edge from its chosen container, in file order, and one without container none |
| Scopes.ContainerIsInnermost | src/indexer/extractor.rs:672-717 | in properly nested source the chosen container lies inside all others exactly when, of the containers that start last, the one listed first ends no later than the others |
| Scopes.DistinctStartsAreInnermost | src/indexer/extractor.rs:672-717 | with pairwise distinct starts it always does |
| Scopes.SharedStartTakesOuter | src/indexer/extractor.rs:672-717 | two containers with one start, of which the outer is chosen |
| Scopes.ChainIsOutermostFirst | src/indexer/extractor.rs:606-664 | in properly nested source the chain of a qualified name runs from the outermost container inwards exactly when ties of line span are listed that way |
| Scopes.SharedLineChainsInnerFirst | src/indexer/extractor.rs:641-653 | two containers on one line whose chain runs from the inner one outwards |
| Scopes.PopulateQualifiedNames | src/indexer/extractor.rs:606-664 | the pass over the symbols in place gives each method and property its chained name and leaves the rest alone |
| MarkdownSections.AssignSectionRanges | src/indexer/markdown.rs:83-99 | the in-place loop gives each heading the end set by the next heading of no deeper level |
| MarkdownSections.SectionCovers | src/indexer/markdown.rs:83-99 | a line is in a heading's section exactly when no heading as shallow starts between them |
| MarkdownSections.AssignHeadingHierarchy | src/indexer/markdown.rs:122-168 | the pass with its mutable stack computes nearest shallower parents, chained names and one edge per parent |
| MarkdownSections.EdgesLeadToChildren | src/indexer/markdown.rs:142-162 | the edges lead from the parent to the heading, one for each heading with a parent, in document order, at its line and under its name |
| MarkdownSections.SectionsAreLaminar | src/indexer/markdown.rs:83-99 | any two sections are disjoint or one holds the other |
| MarkdownSections.ParentIsTightestSection | src/indexer/markdown.rs:122-168 | the stack's parent is the tightest section around the heading, and without one no section is |
| MarkdownSections.QualifiedNameJoinsEnclosing | src/indexer/markdown.rs:142-162 | a qualified name joins the names of all enclosing sections, outermost first, and its own |
| RetrievalChunks.ChunkSource | src/graph/retrieval.rs:91-106 | the chunk loop ends and writes the chunks of the specification |
| RetrievalChunks.ChunksFit | src/graph/retrieval.rs:91-106 | chunks stay inside the file and within forty lines |
| RetrievalChunks.StretchInOneChunk | src/graph/retrieval.rs:91-106 | lines a to b lie wholly in one chunk if and only if b is at most forty beyond the last multiple of 34 before a |
| RetrievalChunks.ChunksCover | src/graph/retrieval.rs:91-106 | any stretch of at most seven lines lies wholly in one chunk, in files of any length |
| RetrievalChunks.EightLinesAreSplit | src/graph/retrieval.rs:91-106 | seven is the most: eight lines from a multiple of 34 on never lie in one chunk |
| DefinitionExcerpt.DefinitionSource | src/service.rs:1597-1682 | the excerpt is the most that file and budget allow; it starts right after the line feed before the first line, or at the start column of that line, and a complete one ends with the last line's line feed or the file |
| SourceText.LongestUnique | src/service.rs:1615-1640 | cutting at a character boundary within the budget has exactly one longest result |
| DefinitionExcerpt.FullestIsFaithful | src/service.rs:1597-1682 | such an excerpt is one contiguous stretch of the file within the budget from the first line or the start column, and is reported complete exactly when the whole definition is there and fits, and then it is those lines |
| DefinitionExcerpt.LinesStart | src/service.rs:1603 | the i-th line starts right after the i-th line feed |
| DefinitionExcerpt.LinesCounted | src/service.rs:1603 | a text has a line for each line feed and one for what follows the last |
| DefinitionExcerpt.PartMeans | src/service.rs:1621-1636 | the definition's own part of a line lies between its byte columns, both character boundaries before the line's breaks |
| EdgeQueries.GetEdgesByTargetNames | src/graph/store.rs:1361-1405 | the loop over chunks of 900 names collects and sorts the rows of every chunk |
| EdgeQueries.ChunkedLookupIsScan | src/graph/store.rs:1361-1405 | it equals one filtered, sorted scan if and only if no stored edge's name comes in two chunks |
| EdgeQueries.DistinctNamesScan | src/graph/store.rs:1361-1405 | for distinct names it always does |
| EdgeQueries.RepeatedNameDuplicates | src/graph/store.rs:1361-1405 | a name list for which an edge comes back twice |
| EdgeQueries.WitnessIsLeast | src/graph/store.rs:1178-1236 | the better of the two directions' first edges is the least (type, file, line, id) non-heuristic edge between two symbols, self-edges included, and none only if there is none |
| EdgeQueries.GetRelatedTestWitnesses | src/graph/store.rs:1178-1236 | up to fifty tests are explained by their least edge, exactly those that have one; larger pages are refused |
| EdgeQueries.RelatedTestsComeFirst | src/graph/store.rs:1152-1167 | a test next to the symbol is on the page unless the page is full of tests that do not come after it |
| EdgeQueries.RelatedTestsHaveWitnesses | src/graph/store.rs:1139-1173 | every test on a page of related tests has such an edge |

## Left out

- GraphStore.Store.RunOne: the cost is enough statements, not the fewest: repeated owner keys, cached owners and rows that are not found cost less.
- LspSessions.LspSession.RequestAll: it composes `request` calls of one session; the source has no such loop.
- CallPath.FindPath: that the answer is shortest is proved when every drain before the one that meets the target takes the whole queue. This is sufficient and not necessary: after an earlier partial drain the answer may or may not be shortest, as edge order decides.
- CallPath.ReachableIsFound: the budget per level is sufficient for full drains, not necessary for finding the target; `CallPath.SearchDecides` is the equivalence for fewer than 5,000 reachable symbols, and with more the search may stop at the limit first.
- Scopes.NestedScopesHaveInnermost: scopes are taken as properly nested, as syntax trees yield them; `Scopes.TightestIsInnermost` is the equivalence without that.
- SourcePosition.PositionsAgree: for texts of at most 2^32 - 1 UTF-16 units, which the 2 MiB limit on semantic sources implies; beyond, the conversion refuses positions and the index wraps.
- SearchPaging.CursorsListEverything: for results of at most 2^63 - 1 items; at larger offsets SQLite cannot bind the offset and `SearchPaging.PageIsSlice` says that the page fails.
- LspSessions.LspSession.Request: ids are unbounded; the 64-bit counter would need 2^64 requests to overflow.
- SQLite itself, SQL text, full-text ranking and tokenizing: tables are maps or sequences with the keys of src/db/schema.rs:41-52 and 106, a full-text result is a fixed list, a failing statement is a budget that runs out, rollback restores the saved tables.
- The full-text query binds one SQL parameter per exact match; a list of exact matches beyond SQLite's limit on parameters makes the page fail in the code, and `SearchPaging.PageIsSlice` does not model that limit.
- A transaction body stops at its first error, as the closures of the store do with `?`; a body that swallows the error of a joined operation is not modelled.
- Row ids of owners grow without bound; SQLite's behaviour at the largest 64-bit row id is not modelled.
- Single-edge writes, file hashes and generations: they do not touch nodes or owners.
- Columns of a node that no modelled function looks into are one opaque value; signatures, tokens and metadata are not rebuilt.
- SHA-256 is an uninterpreted function to 32 bytes, and the JSON parser of older cursors an uninterpreted partial function; so is the candidate lookup of a name in the exact search.
- JSON encoding of messages: framing carries opaque bodies, sessions carry JSON values.
- Timeouts, threads and processes: the deadline, a dead reader and a moment without a message are events of the stream, a failing send is a budget; deadline checks have no other effect.
- I/O errors of the framed stream: the modelled stream only ends.
- Source texts are sequences of characters with UTF-8 and UTF-16 lengths; the byte scan for line ends is a scan over characters, as CR and LF are single bytes.
- Line numbers, columns and offsets of symbols, headings, chunks and excerpts are unbounded.
- A page of tests larger than 2^63 - 1, which SQLite cannot bind, is an error in the code; the model takes any limit.
- File reading, hash checks before an excerpt, and queries without tokens: flat branches before the modelled code.
- Markdown bodies, anchors and links, retrieval replacement and deletion, and Tree-sitter parsing: the models start from headings, lines and captured definitions.
- Mutators that a caller could interleave between two pages: paging is stated on an unchanged store.
- Read scopes dropped out of order: the code drops them lexically, so scopes nest.
