/** Overlapping source chunks for lexical recall. */
module RetrievalChunks {

  const CHUNK_LINES := 40
  const CHUNK_OVERLAP := 6

  /** Lines first to last of a file, counted from 1. */
  datatype Chunk = Chunk(first: nat, last: nat)

  function Min(a: nat, b: nat): nat { if a <= b then a else b }

  /** The chunk that begins after `start` lines, and those after it. */
  function ChunksFrom(lines: nat, start: nat): seq<Chunk>
    decreases lines - start
  {
    if start >= lines then []
    else
      var end := Min(start + CHUNK_LINES, lines);
      [Chunk(start + 1, end)] + if end == lines then [] else ChunksFrom(lines, start + CHUNK_LINES - CHUNK_OVERLAP)
  }

  method ChunkSource(lines: nat) returns (chunks: seq<Chunk>)
    ensures chunks == ChunksFrom(lines, 0)
  {
    chunks := [];
    var start := 0;
    while start < lines
      invariant chunks + ChunksFrom(lines, start) == ChunksFrom(lines, 0)
      decreases lines - start
    {
      var end := Min(start + CHUNK_LINES, lines);
      chunks := chunks + [Chunk(start + 1, end)];
      if end == lines {
        assert chunks == ChunksFrom(lines, 0);
        return;
      }
      start := start + CHUNK_LINES - CHUNK_OVERLAP;
    }
  }

  const STEP := CHUNK_LINES - CHUNK_OVERLAP

  predicate HoldsLines(c: Chunk, a: nat, b: nat) {
    c.first <= a && b <= c.last
  }

  ghost predicate SomeChunkHolds(chunks: seq<Chunk>, a: nat, b: nat) {
    exists c | c in chunks :: HoldsLines(c, a, b)
  }

  /** Chunks stay inside the file and within forty lines. */
  lemma {:induction false} ChunksFit(lines: nat, start: nat)
    ensures forall c | c in ChunksFrom(lines, start) :: start < c.first <= c.last <= lines && c.last - c.first < CHUNK_LINES
    decreases lines - start
  {
    if start + CHUNK_LINES >= lines {
    } else {
      ChunksFit(lines, start + STEP);
    }
  }

  /** Some chunk from `start` on holds the lines, chunk by chunk. */
  predicate HeldFrom(lines: nat, start: nat, a: nat, b: nat)
    decreases lines - start
  {
    start < lines &&
    (HoldsLines(Chunk(start + 1, Min(start + CHUNK_LINES, lines)), a, b) ||
     (start + CHUNK_LINES < lines && HeldFrom(lines, start + STEP, a, b)))
  }

  lemma HoldsFirst(c: Chunk, later: seq<Chunk>, a: nat, b: nat)
    ensures SomeChunkHolds([c] + later, a, b) <==> HoldsLines(c, a, b) || SomeChunkHolds(later, a, b)
  {
  }

  lemma {:induction false} HeldBySome(lines: nat, start: nat, a: nat, b: nat)
    ensures SomeChunkHolds(ChunksFrom(lines, start), a, b) <==> HeldFrom(lines, start, a, b)
    decreases lines - start
  {
    if start >= lines {
    } else if start + CHUNK_LINES >= lines {
      HoldsFirst(Chunk(start + 1, lines), [], a, b);
    } else {
      HeldBySome(lines, start + STEP, a, b);
      HoldsFirst(Chunk(start + 1, start + CHUNK_LINES), ChunksFrom(lines, start + STEP), a, b);
    }
  }

  lemma {:induction false} NotHeldBefore(lines: nat, start: nat, a: nat, b: nat)
    requires a <= start
    ensures !HeldFrom(lines, start, a, b)
    decreases lines - start
  {
    if start >= lines {
    } else {
      NotHeldBefore(lines, start + STEP, a, b);
    }
  }

  lemma {:induction false} StretchHeld(lines: nat, start: nat, k: nat, a: nat, b: nat)
    requires start + STEP * k < a <= start + STEP * (k + 1) && a <= b <= lines
    ensures HeldFrom(lines, start, a, b) <==> b <= start + STEP * k + CHUNK_LINES
    decreases k
  {
    if k == 0 {
      NotHeldBefore(lines, start + STEP, a, b);
    } else if start + CHUNK_LINES < lines {
      StretchHeld(lines, start + STEP, k - 1, a, b);
    }
  }

  /** Lines a to b lie wholly inside one chunk exactly when b is at most forty beyond the last multiple of 34 before a. */
  lemma StretchInOneChunk(lines: nat, a: nat, b: nat)
    requires 0 < a <= b <= lines
    ensures SomeChunkHolds(ChunksFrom(lines, 0), a, b) <==> b <= (a - 1) / STEP * STEP + CHUNK_LINES
  {
    HeldBySome(lines, 0, a, b);
    StretchHeld(lines, 0, (a - 1) / STEP, a, b);
  }

  /** Every stretch of at most seven lines lies wholly inside one chunk, in a file of any length; so every line is covered. */
  lemma ChunksCover(lines: nat, a: nat, b: nat)
    requires 0 < a <= b <= lines && b - a <= CHUNK_OVERLAP
    ensures SomeChunkHolds(ChunksFrom(lines, 0), a, b)
  {
    StretchInOneChunk(lines, a, b);
  }

  /** Eight lines that begin at a multiple of 34 never do. */
  lemma EightLinesAreSplit(lines: nat, k: nat)
    requires 0 < k && STEP * k + CHUNK_OVERLAP < lines
    ensures !SomeChunkHolds(ChunksFrom(lines, 0), STEP * k, STEP * k + CHUNK_OVERLAP + 1)
  {
    StretchInOneChunk(lines, STEP * k, STEP * k + CHUNK_OVERLAP + 1);
  }
}
