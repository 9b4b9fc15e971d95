/** The invariant of the allocator's heap over single calls and over whole runs. */
module AllocatorProofs {
  import opened AllocatorSpec

  /* ----- blocks and the bytes they span ----- */

  lemma {:induction false} FreeBlockHeld(h: Heap, i: nat)
    requires Valid(h) && i < |h.free|
    ensures HEAP_START <= h.free[i].addr && h.free[i].End() <= h.brk
    ensures h.free[i].addr !in h.live
  {
    var b := h.free[i];
    assert b.Spans(b.addr) && b.Spans(b.End() - 1);
    assert InFree(h.free, b.addr) && InFree(h.free, b.End() - 1);
    assert b.addr in h.owned && b.End() - 1 in h.owned;
  }

  lemma {:induction false} LiveBlockHeld(h: Heap, p: int)
    requires Valid(h) && p in h.live
    ensures HEAP_START <= p && Block(p, h.live[p]).End() <= h.brk
  {
    var b := Block(p, h.live[p]);
    assert b.Spans(b.addr) && b.Spans(b.End() - 1);
    assert InLive(h.live, b.addr) && InLive(h.live, b.End() - 1);
    assert b.addr in h.owned && b.End() - 1 in h.owned;
  }

  lemma {:induction false} InFreeSplitAt(free: seq<Block>, i: nat, a: int)
    requires i < |free|
    ensures InFree(free, a) <==> InFree(free[..i] + free[i + 1..], a) || free[i].Spans(a)
  {
    var r := free[..i] + free[i + 1..];
    if k :| 0 <= k < |free| && free[k].Spans(a) {
      assert k != i ==> r[if k < i then k else k - 1] == free[k];
    }
    if k :| 0 <= k < |r| && r[k].Spans(a) {
      assert free[if k < i then k else k + 1] == r[k];
    }
  }

  lemma {:induction false} InFreeInsert(front: seq<Block>, c: Block, back: seq<Block>, a: int)
    ensures InFree(front + [c] + back, a) <==> InFree(front + back, a) || c.Spans(a)
  {
    var r := front + [c] + back;
    InFreeSplitAt(r, |front|, a);
    assert r[..|front|] + r[|front| + 1..] == front + back;
  }

  lemma {:induction false} InLiveAdd(live: map<int, int>, p: int, size: int, a: int)
    requires p !in live
    ensures InLive(live[p := size], a) <==> InLive(live, a) || Block(p, size).Spans(a)
  {
    var r := live[p := size];
    if q :| q in live && Block(q, live[q]).Spans(a) {
      assert q in r && r[q] == live[q];
    }
    if Block(p, size).Spans(a) {
      assert p in r && r[p] == size;
    }
  }

  /* ----- my_malloc ----- */

  /** Cutting block `i` writes the tail's header over no live block. */
  predicate CutClear(h: Heap, i: nat, size: int)
    requires i < |h.free|
  {
    Splits(h.free[i], size) ==> Tail(h.free[i], size).addr !in h.live
  }

  lemma {:induction false} ValidCutClear(h: Heap, i: nat, size: int)
    requires Valid(h) && i < |h.free| && 0 <= size <= h.free[i].size
    ensures CutClear(h, i, size)
  {
  }

  /** Splitting a block and handing out its front, or handing it out whole,
      regroups the bytes without gaining or losing any. */
  lemma {:induction false} TakeKeepsCover(h: Heap, i: nat, size: int, a: int)
    requires i < |h.free| && 0 <= size <= h.free[i].size < SIZE_SPACE
    requires h.free[i].addr !in h.live
    requires CutClear(h, i, size)
    ensures var t := Take(h, i, size).heap;
            InFree(t.free, a) || InLive(t.live, a) <==> InFree(h.free, a) || InLive(h.live, a)
  {
    var t := Take(h, i, size).heap;
    var b := h.free[i];
    InFreeSplitAt(h.free, i, a);
    InLiveAdd(h.live, b.addr, t.live[b.addr], a);
    if NODE <= b.size - size {
      InFreeSplitAt(t.free, i, a);
      assert t.free[..i] + t.free[i + 1..] == h.free[..i] + h.free[i + 1..];
    }
  }

  /** A block of the list after `Take` is a block of the list before, or the tail of block `i`. */
  lemma {:induction false} TakeShrinks(h: Heap, i: nat, size: int, k: nat) returns (k': nat)
    requires i < |h.free| && 0 <= size <= h.free[i].size < SIZE_SPACE
    requires k < |Take(h, i, size).heap.free|
    ensures k' < |h.free| && (Take(h, i, size).heap.free[k] == h.free[k'] ||
                              (k' == i && Take(h, i, size).heap.free[k].End() == h.free[i].End() &&
                               h.free[i].addr + size + HEADER == Take(h, i, size).heap.free[k].addr))
    ensures k' == if NODE <= h.free[i].size - size || k < i then k else k + 1
  {
    k' := if NODE <= h.free[i].size - size || k < i then k else k + 1;
  }

  lemma {:induction false} TakeKeepsListed(h: Heap, i: nat, size: int)
    requires i < |h.free| && 0 <= size <= h.free[i].size < SIZE_SPACE && FreeListed(h.free)
    ensures FreeListed(Take(h, i, size).heap.free)
  {
  }

  lemma {:induction false} TakeKeepsApart(h: Heap, i: nat, size: int)
    requires i < |h.free| && 0 <= size <= h.free[i].size < SIZE_SPACE
    requires FreeListed(h.free) && Apart(h.free, h.live)
    requires CutClear(h, i, size)
    ensures Apart(Take(h, i, size).heap.free, Take(h, i, size).heap.live)
  {
  }

  lemma {:induction false} TakeValid(h: Heap, i: nat, size: int)
    requires Valid(h) && i < |h.free| && 0 <= size <= h.free[i].size
    ensures Valid(Take(h, i, size).heap) <==> LINKS <= size || h.free[i].size < size + NODE
  {
    FreeBlockHeld(h, i);
    ValidCutClear(h, i, size);
    forall a {
      TakeKeepsCover(h, i, size, a);
    }
    TakeKeepsListed(h, i, size);
    TakeKeepsApart(h, i, size);
    var t := Take(h, i, size).heap;
    assert forall p | p in t.live && p != h.free[i].addr :: t.live[p] == h.live[p];
    assert h.free[i].addr in t.live;
  }

  /** How the chunk size relates to the request: room for the header is sure
      only in the repaired reading. */
  lemma {:induction false} ChunkSuffices(size: int, mode: Mode)
    requires 0 <= size
    ensures STEP <= Chunk(size, mode) && size < Chunk(size, mode)
    ensures size <= Chunk(size, mode) - HEADER <==> mode.Repaired? || size % STEP <= STEP - HEADER
    ensures Chunk(size, mode) % 1024 == 0 && Chunk(size, mode) <= size + 1024 + if mode.Repaired? then 8 else 0
  {
  }

  /** A chunk that really continues the last free block leaves a well-formed heap. */
  lemma {:induction false} MergeValid(h: Heap, size: int, at: int, mode: Mode)
    requires Valid(h) && 0 <= size && h.brk <= at && at + Chunk(size, mode) <= HEAP_END
    requires h.free != [] && h.free[|h.free| - 1].End() == at && MergesLast(h.free, at, mode)
    ensures Valid(Grow(h, size, at, mode))
  {
    var g := Grow(h, size, at, mode);
    var n := Chunk(size, mode);
    ChunkSuffices(size, mode);
    var last := |h.free| - 1;
    FreeBlockHeld(h, last);
    assert h.free[..last] + h.free[last + 1..] == g.free[..last] + g.free[last + 1..];
    forall a
      ensures a in g.owned <==> InFree(g.free, a) || InLive(g.live, a)
    {
      InFreeSplitAt(h.free, last, a);
      InFreeSplitAt(g.free, last, a);
      assert g.free[last].Spans(a) <==> h.free[last].Spans(a) || at <= a < at + n;
    }
    forall p | p in h.live
      ensures p <= h.brk
    {
      LiveBlockHeld(h, p);
    }
    forall i, p | 0 <= i < |g.free| && p in g.live
      ensures g.free[i].End() <= p || Block(p, g.live[p]).End() <= g.free[i].addr
    {
      assert h.free[i].End() <= p || Block(p, h.live[p]).End() <= h.free[i].addr;
      LiveBlockHeld(h, p);
    }
  }

  /** A chunk merged into a last block it does not continue leaves its last byte in no
      block, or the tail that is cut off lands on a live block's header. */
  lemma {:induction false} MisMergeLosesBytes(h: Heap, size: int, at: int)
    requires Valid(h) && 0 <= size && h.brk <= at && at + Chunk(size, AsWritten) <= HEAP_END
    requires MergesLast(h.free, at, AsWritten) && h.free[|h.free| - 1].End() != at
    ensures var g := Grow(h, size, at, AsWritten);
            var t := Take(g, |g.free| - 1, size).heap;
            && !Valid(t)
            && ((exists a :: a in t.owned && !InFree(t.free, a) && !InLive(t.live, a)) ||
                (exists i :: 0 <= i < |t.free| && t.free[i].addr in t.live))
  {
    var g := Grow(h, size, at, AsWritten);
    var last := |g.free| - 1;
    var n := Chunk(size, AsWritten);
    ChunkSuffices(size, AsWritten);
    FreeBlockHeld(h, last);
    var a := at + n - 1;
    InFreeSplitAt(h.free, last, a);
    InFreeSplitAt(g.free, last, a);
    assert h.free[..last] + h.free[last + 1..] == g.free[..last] + g.free[last + 1..];
    if InFree(h.free, a) || InLive(h.live, a) {
      assert false;
    }
    assert a in g.owned;
    if CutClear(g, last, size) {
      TakeKeepsCover(g, last, size, a);
      var t := Take(g, last, size).heap;
      assert a in t.owned && !InFree(t.free, a) && !InLive(t.live, a);
    } else {
      var t := Take(g, last, size).heap;
      var tail := Tail(g.free[last], size);
      assert t.free[last] == tail && tail.addr in t.live && t.live[tail.addr] == tail.size;
      assert !Apart(t.free, t.live);
    }
  }

  /** A heap with a live block, and perhaps a free one after it, added above the break. */
  lemma {:induction false} AboveBreakApart(h: Heap, at: int, size: int, tail: seq<Block>)
    requires Valid(h) && h.brk <= at && LINKS <= size
    requires |tail| <= 1 && (tail != [] ==> tail[0].addr == at + size + HEADER && LINKS <= tail[0].size)
    ensures FreeListed(h.free + tail) && LiveApart(h.live[at := size]) && Apart(h.free + tail, h.live[at := size])
    ensures LinksFit(Heap(h.free + tail, h.live[at := size], {}, 0))
  {
    forall p | p in h.live
      ensures Block(p, h.live[p]).End() <= at
    {
      LiveBlockHeld(h, p);
    }
    forall i | 0 <= i < |h.free|
      ensures h.free[i].End() <= at
    {
      FreeBlockHeld(h, i);
    }
  }

  /** Nothing live starts at or above a chunk at or above the break. */
  lemma {:induction false} LiveBelowChunk(h: Heap, at: int)
    requires Valid(h) && h.brk <= at
    ensures forall p | p in h.live :: p < at
  {
    forall p | p in h.live
      ensures p < at
    {
      LiveBlockHeld(h, p);
      assert LINKS <= h.live[p];
    }
  }

  lemma {:induction false} SeparateChunkCovers(h: Heap, size: int, at: int, mode: Mode, a: int)
    requires Valid(h) && 0 <= size && h.brk <= at && at + Chunk(size, mode) <= HEAP_END
    requires !MergesLast(h.free, at, mode) && size <= Chunk(size, mode) - HEADER
    ensures var t := Take(Grow(h, size, at, mode), |h.free|, size).heap;
            a in t.owned <==> InFree(t.free, a) || InLive(t.live, a)
  {
    var g := Grow(h, size, at, mode);
    LiveBelowChunk(h, at);
    TakeKeepsCover(g, |h.free|, size, a);
    InFreeSplitAt(g.free, |h.free|, a);
    assert g.free[..|h.free|] + g.free[|h.free| + 1..] == h.free;
  }

  /** A separate chunk: its front is handed out and the rest, if any, becomes the last free block. */
  lemma {:induction false} SeparateChunkValid(h: Heap, size: int, at: int, mode: Mode)
    requires Valid(h) && LINKS <= size && h.brk <= at && at + Chunk(size, mode) <= HEAP_END
    requires !MergesLast(h.free, at, mode) && size <= Chunk(size, mode) - HEADER
    ensures Valid(Take(Grow(h, size, at, mode), |h.free|, size).heap)
  {
    var t := Take(Grow(h, size, at, mode), |h.free|, size).heap;
    SeparateChunkApart(h, size, at, mode);
    forall a {
      SeparateChunkCovers(h, size, at, mode, a);
    }
    ChunkSuffices(size, mode);
    hide FreeListed, Apart, LiveApart, LinksFit, Chunk, InFree, InLive;
    assert t.brk == at + Chunk(size, mode);
    forall a | a in t.owned
      ensures HEAP_START <= a < t.brk
    {
      assert a in h.owned || at <= a < t.brk;
    }
  }

  lemma {:induction false} SeparateChunkApart(h: Heap, size: int, at: int, mode: Mode)
    requires Valid(h) && LINKS <= size && h.brk <= at && at + Chunk(size, mode) <= HEAP_END
    requires !MergesLast(h.free, at, mode) && size <= Chunk(size, mode) - HEADER
    ensures var t := Take(Grow(h, size, at, mode), |h.free|, size).heap;
            FreeListed(t.free) && LiveApart(t.live) && Apart(t.free, t.live) && LinksFit(t)
  {
    LiveBelowChunk(h, at);
    var b := Block(at, Chunk(size, mode) - HEADER);
    var tail := if Splits(b, size) then [Tail(b, size)] else [];
    AboveBreakApart(h, at, if Splits(b, size) then size else b.size, tail);
    TakeAppended(Grow(h, size, at, mode), h.free, b, size);
    hide Valid, FreeListed, LiveApart, Apart, Chunk, Range, Take;
    assert Grow(h, size, at, mode).free == h.free + [b];
  }

  lemma {:induction false} TakeAppended(g: Heap, front: seq<Block>, b: Block, size: int)
    requires g.free == front + [b]
    ensures var t := Take(g, |front|, size).heap;
            if Splits(b, size) then t.free == front + [Tail(b, size)] &&
                                    (Tail(b, size).addr !in g.live ==> t.live == g.live[b.addr := size])
            else t.free == front + [] && t.live == g.live[b.addr := b.size]
  {
  }

  /** A separate chunk without room for the header is cut past its end, and a
      request below the size of the links yields a block that cannot be freed. */
  lemma {:induction false} SeparateChunkInvalid(h: Heap, size: int, at: int)
    requires Valid(h) && 0 <= size && h.brk <= at && at + Chunk(size, AsWritten) <= HEAP_END
    requires !MergesLast(h.free, at, AsWritten)
    requires size < LINKS || Chunk(size, AsWritten) - HEADER < size
    ensures var g := Grow(h, size, at, AsWritten); !Valid(Take(g, |g.free| - 1, size).heap)
  {
    var g := Grow(h, size, at, AsWritten);
    ChunkSuffices(size, AsWritten);
    var t := Take(g, |h.free|, size).heap;
    assert at in t.live && t.live[at] == size;
    if LINKS <= size {
      var a := at + size + HEADER - 1;
      assert Block(at, size).Spans(a) && InLive(t.live, a);
      if a in h.owned {
        assert false;
      }
      assert a !in t.owned;
    }
  }

  /** Growing the heap by extending the last free block. */
  lemma {:induction false} GrowMergedValid(h: Heap, size: int, at: int, mode: Mode)
    requires Valid(h) && 0 <= size && h.brk <= at && at + Chunk(size, mode) <= HEAP_END
    requires MergesLast(h.free, at, mode) && (mode.Repaired? ==> LINKS <= size)
    ensures Valid(Take(Grow(h, size, at, mode), |h.free| - 1, size).heap) <==>
            LINKS <= size && h.free[|h.free| - 1].End() == at
  {
    ChunkSuffices(size, mode);
    var last := |h.free| - 1;
    if h.free[last].End() == at {
      assert LINKS <= h.free[last].size;
      MergeValid(h, size, at, mode);
      TakeValid(Grow(h, size, at, mode), last, size);
    } else {
      MisMergeLosesBytes(h, size, at);
    }
  }

  /** Growing the heap by a block of its own. */
  lemma {:induction false} GrowSeparateValid(h: Heap, size: int, at: int, mode: Mode)
    requires Valid(h) && 0 <= size && h.brk <= at && at + Chunk(size, mode) <= HEAP_END
    requires !MergesLast(h.free, at, mode) && (mode.Repaired? ==> LINKS <= size)
    ensures Valid(Take(Grow(h, size, at, mode), |h.free|, size).heap) <==>
            LINKS <= size && (mode.Repaired? || size % STEP <= STEP - HEADER)
  {
    ChunkSuffices(size, mode);
    if LINKS <= size && size <= Chunk(size, mode) - HEADER {
      SeparateChunkValid(h, size, at, mode);
    } else {
      SeparateChunkInvalid(h, size, at);
    }
  }

  /** `my_malloc` keeps the heap well-formed exactly under `MallocSafe`; in the
      repaired reading that is always. */
  lemma {:induction false} MallocValid(h: Heap, request: int, sbrk: Sbrk, mode: Mode)
    requires Valid(h) && 0 <= request <= MAX_REQUEST
    requires Answers(h, sbrk, Chunk(Wanted(request, mode), mode))
    requires Malloc(h, request, sbrk, mode).Allocated?
    ensures Valid(Malloc(h, request, sbrk, mode).heap) <==> MallocSafe(h, request, sbrk, mode)
  {
    hide Valid, Take;
    var size := Wanted(request, mode);
    var i := FirstFit(h.free, size);
    if i < |h.free| {
      TakeValid(h, i, size);
    } else if MergesLast(h.free, sbrk.addr, mode) {
      GrowMergedValid(h, size, sbrk.addr, mode);
    } else {
      GrowSeparateValid(h, size, sbrk.addr, mode);
    }
  }

  /* ----- my_free ----- */

  /** Block `b` lies between the blocks before and from index `i`. */
  predicate Between(free: seq<Block>, i: nat, b: Block) {
    && i <= |free| && 0 <= b.size
    && (forall k | 0 <= k < i :: free[k].End() <= b.addr)
    && (forall k | i <= k < |free| :: b.End() <= free[k].addr)
  }

  predicate AllBelow(front: seq<Block>, x: int) { forall k | 0 <= k < |front| :: front[k].End() < x }

  predicate AllAbove(back: seq<Block>, x: int) { forall k | 0 <= k < |back| :: x < back[k].addr }

  lemma {:induction false} ListedAround(front: seq<Block>, c: Block, back: seq<Block>)
    requires FreeListed(front) && FreeListed(back) && 0 <= c.size
    requires AllBelow(front, c.addr) && AllAbove(back, c.End())
    ensures FreeListed(front + [c] + back)
  {
  }

  lemma {:induction false} ListedParts(free: seq<Block>, i: nat)
    requires FreeListed(free) && i < |free|
    ensures FreeListed(free[..i]) && FreeListed(free[i + 1..])
    ensures AllBelow(free[..i], free[i].addr) && AllAbove(free[i + 1..], free[i].End())
  {
  }

  /** What follows the inserted block, merged with the block above it if they touch. */
  lemma {:induction false} UpperPart(free: seq<Block>, i: nat, b: Block) returns (c: Block, rest: seq<Block>)
    requires FreeListed(free) && Between(free, i, b)
    requires forall k | 0 <= k < |free| :: 0 <= free[k].size
    ensures c == if i < |free| && b.End() == free[i].addr then Join(b, free[i]) else b
    ensures rest == if i < |free| && b.End() == free[i].addr then free[i + 1..] else free[i..]
    ensures 0 <= c.size && FreeListed(rest) && AllAbove(rest, c.End())
  {
    if i < |free| {
      ListedParts(free, i);
      assert free[i..] == [free[i]] + free[i + 1..];
    }
    c := if i < |free| && b.End() == free[i].addr then Join(b, free[i]) else b;
    rest := if i < |free| && b.End() == free[i].addr then free[i + 1..] else free[i..];
  }

  /** Merging with the neighbours that touch keeps the list coalesced. */
  lemma {:induction false} InsertListed(free: seq<Block>, i: nat, b: Block)
    requires FreeListed(free) && Between(free, i, b)
    requires forall k | 0 <= k < |free| :: 0 <= free[k].size
    ensures FreeListed(Insert(free, i, b))
  {
    var c, rest := UpperPart(free, i, b);
    if i == 0 {
      ListedAround([], c, rest);
      assert [] + [c] + rest == free[..0] + [c] + rest;
    } else {
      ListedParts(free, i - 1);
      assert free[..i] == free[..i - 1] + [free[i - 1]];
      if free[i - 1].End() == b.addr {
        ListedAround(free[..i - 1], Join(free[i - 1], c), rest);
      } else {
        ListedAround(free[..i - 1], free[i - 1], []);
        assert free[..i - 1] + [free[i - 1]] + [] == free[..i];
        ListedAround(free[..i], c, rest);
      }
    }
  }

  lemma {:induction false} InsertCovers(free: seq<Block>, i: nat, b: Block, a: int)
    requires Between(free, i, b)
    requires forall k | 0 <= k < |free| :: 0 <= free[k].size
    ensures InFree(Insert(free, i, b), a) <==> InFree(free, a) || b.Spans(a)
  {
    var upper := i < |free| && b.End() == free[i].addr;
    var c := if upper then Join(b, free[i]) else b;
    var rest := if upper then free[i + 1..] else free[i..];
    if upper {
      InFreeSplitAt(free, i, a);
      assert c.Spans(a) <==> b.Spans(a) || free[i].Spans(a);
    } else {
      assert free == free[..i] + rest;
    }
    assert InFree(free, a) || b.Spans(a) <==> InFree(free[..i] + rest, a) || c.Spans(a);
    if 0 < i && free[i - 1].End() == b.addr {
      var d := Join(free[i - 1], c);
      InFreeSplitAt(free[..i] + rest, i - 1, a);
      assert (free[..i] + rest)[..i - 1] + (free[..i] + rest)[i..] == free[..i - 1] + rest;
      assert d.Spans(a) <==> free[i - 1].Spans(a) || c.Spans(a);
      InFreeInsert(free[..i - 1], d, rest, a);
    } else {
      InFreeInsert(free[..i], c, rest, a);
    }
  }

  predicate Misses(b: Block, q: Block) { b.End() <= q.addr || q.End() <= b.addr }

  /** A block that misses every block of the list and the inserted one misses what they merge into. */
  lemma {:induction false} InsertMisses(free: seq<Block>, i: nat, b: Block, q: Block)
    requires Between(free, i, b) && 0 <= q.size && Misses(b, q)
    requires forall k | 0 <= k < |free| :: 0 <= free[k].size && Misses(free[k], q)
    ensures var r := Insert(free, i, b); forall k | 0 <= k < |r| :: Misses(r[k], q)
  {
  }

  lemma {:induction false} InsertLinksFit(free: seq<Block>, i: nat, b: Block)
    requires i <= |free| && LINKS <= b.size && forall k | 0 <= k < |free| :: LINKS <= free[k].size
    ensures var r := Insert(free, i, b); forall k | 0 <= k < |r| :: LINKS <= r[k].size
  {
  }

  lemma {:induction false} PositionBetween(h: Heap, p: int)
    requires Valid(h) && p in h.live
    ensures Between(h.free, Position(h.free, p), Block(p, h.live[p]))
  {
  }

  lemma {:induction false} ReleasedCovers(h: Heap, p: int, brk: int, a: int)
    requires Valid(h) && p in h.live
    ensures var r := Released(h, p, brk);
            InFree(r.free, a) || InLive(r.live, a) <==> InFree(h.free, a) || InLive(h.live, a)
  {
    var live := h.live - {p};
    PositionBetween(h, p);
    InsertCovers(h.free, Position(h.free, p), Block(p, h.live[p]), a);
    assert h.live == live[p := h.live[p]];
    InLiveAdd(live, p, h.live[p], a);
  }

  lemma {:induction false} ReleasedApart(h: Heap, p: int, brk: int)
    requires Valid(h) && p in h.live
    ensures var r := Released(h, p, brk); Apart(r.free, r.live)
  {
    var r := Released(h, p, brk);
    var i := Position(h.free, p);
    PositionBetween(h, p);
    forall k, q | 0 <= k < |r.free| && q in r.live
      ensures r.free[k].End() <= q || Block(q, r.live[q]).End() <= r.free[k].addr
    {
      InsertMisses(h.free, i, Block(p, h.live[p]), Block(q, h.live[q]));
      assert Misses(r.free[k], Block(q, r.live[q]));
    }
  }

  lemma {:induction false} ReleasedValid(h: Heap, p: int, brk: int)
    requires Valid(h) && p in h.live && h.brk <= brk <= HEAP_END
    ensures Valid(Released(h, p, brk))
  {
    PositionBetween(h, p);
    InsertListed(h.free, Position(h.free, p), Block(p, h.live[p]));
    forall a {
      ReleasedCovers(h, p, brk, a);
    }
    ReleasedApart(h, p, brk);
    InsertLinksFit(h.free, Position(h.free, p), Block(p, h.live[p]));
    assert LiveApart(Released(h, p, brk).live);
  }

  /** In the repaired reading the last block gives up the bytes that are returned. */
  lemma {:induction false} RepairedShrinkValid(h: Heap)
    requires Valid(h) && h.free != [] && h.free[|h.free| - 1].End() == h.brk
    ensures Valid(Shrink(h, Repaired))
  {
    var s := Shrink(h, Repaired);
    var last := |h.free| - 1;
    var b := h.free[last];
    var n := GiveBack(b.size, Repaired);
    FreeBlockHeld(h, last);
    FreeBlockSized(h, last);
    assert 0 <= n <= b.size - LINKS;
    forall p | p in h.live
      ensures Block(p, h.live[p]).End() <= b.addr
    {
      LiveBlockHeld(h, p);
    }
    assert h.free[..last] + h.free[last + 1..] == s.free[..last] + s.free[last + 1..];
    hide Chunk, GiveBack;
    forall a
      ensures a in s.owned <==> InFree(s.free, a) || InLive(s.live, a)
    {
      InFreeSplitAt(h.free, last, a);
      InFreeSplitAt(s.free, last, a);
      if InFree(s.free[..last] + s.free[last + 1..], a) {
      }
    }
    hide InFree, InLive;
    assert FreeListed(s.free) && Apart(s.free, s.live) && LinksFit(s);
  }

  /** Giving memory back keeps the heap well-formed only if the last block gives
      up the bytes too, which the code as written does not do. */
  lemma {:induction false} ShrinkValid(h: Heap, mode: Mode)
    requires Valid(h) && h.free != []
    ensures Valid(Shrink(h, mode)) <==>
            mode.Repaired? || (h.free[|h.free| - 1].End() == h.brk ==> h.free[|h.free| - 1].size < STEP)
  {
    var last := |h.free| - 1;
    var b := h.free[last];
    if b.End() == h.brk {
      if mode.Repaired? {
        hide Valid, Shrink;
        RepairedShrinkValid(h);
      } else {
        FreeBlockHeld(h, last);
        FreeBlockSized(h, last);
        var s := Shrink(h, mode);
        if STEP <= b.size {
          ghost var n := GiveBack(b.size, mode);
          assert STEP <= n && h.brk - 1 in Range(h.brk - n, h.brk);
          assert s.free[last] == b && s.free[last].Spans(h.brk - 1);
          assert InFree(s.free, h.brk - 1) && h.brk - 1 !in s.owned;
        } else {
          hide Valid;
          assert Range(h.brk, h.brk) == {};
          assert s == h;
        }
      }
    }
  }

  /** `my_free` keeps the heap well-formed exactly under `FreeSafe`. */
  lemma {:induction false} FreeValid(h: Heap, p: int, brk: int, mode: Mode)
    requires Valid(h) && p in h.live && h.brk <= brk <= HEAP_END
    ensures Valid(Free(h, p, brk, mode)) <==> FreeSafe(h, p, brk, mode)
  {
    ReleasedValid(h, p, brk);
    ShrinkValid(Released(h, p, brk), mode);
    hide Valid, Shrink, Insert;
  }

  /** The whole steps of 1024 bytes that fit into a block, beside its links in the repaired
      reading. */
  lemma {:induction false} GiveBackIs(size: int, mode: Mode)
    requires LINKS <= size
    ensures var n := GiveBack(size, mode);
            && 0 <= n && n % 1024 == 0
            && (mode.AsWritten? ==> size - 1024 < n <= size)
            && (mode.Repaired? ==> size - 16 - 1024 < n <= size - 16)
  {
  }

  lemma {:induction false} ShrinkGivesBack(r: Heap, mode: Mode) returns (n: int)
    requires r.free != [] && LINKS <= r.free[|r.free| - 1].size
    ensures GivenBack(r, Shrink(r, mode), n, mode)
  {
    var last := r.free[|r.free| - 1];
    n := 0;
    if last.End() == r.brk {
      n := GiveBack(last.size, mode);
      GiveBackIs(last.size, mode);
      hide GiveBack;
      assert r.free[|r.free| - 1 := last] == r.free;
    }
  }

  /** `f` is `r` without the top `n` bytes: none unless the last free block ends at the
      break, and else every whole step of 1024 bytes that fits into that block, beside its
      links in the repaired reading. */
  ghost predicate GivenBack(r: Heap, f: Heap, n: int, mode: Mode)
    requires r.free != []
  {
    var last := r.free[|r.free| - 1];
    && 0 <= n && n % 1024 == 0 && f.brk == r.brk - n && f.live == r.live
    && (forall a :: a in f.owned <==> a in r.owned && !(r.brk - n <= a < r.brk))
    && f.free == (if mode.AsWritten? then r.free else r.free[|r.free| - 1 := Block(last.addr, last.size - n)])
    && if last.End() != r.brk then n == 0
       else if mode.AsWritten? then last.size - 1024 < n <= last.size
       else last.size - 16 - 1024 < n <= last.size - 16
  }

  /** So much `my_free` gives back, once the block is on the list. */
  lemma {:induction false} FreeGivesBack(h: Heap, p: int, brk: int, mode: Mode) returns (n: int)
    requires Valid(h) && p in h.live && h.brk <= brk <= HEAP_END
    ensures GivenBack(Released(h, p, brk), Free(h, p, brk, mode), n, mode)
  {
    ReleasedValid(h, p, brk);
    var r := Released(h, p, brk);
    FreeBlockSized(r, |r.free| - 1);
    assert LINKS <= r.free[|r.free| - 1].size;
    hide Released, Valid, Insert, GivenBack, Shrink;
    n := ShrinkGivesBack(r, mode);
  }

  /* ----- what a call does for its caller ----- */

  lemma {:induction false} TakeResult(h: Heap, i: nat, size: int)
    requires i < |h.free| && 0 <= size <= h.free[i].size < SIZE_SPACE
    requires CutClear(h, i, size)
    ensures var Allocated(t, p) := Take(h, i, size);
            p == h.free[i].addr && p in t.live && t.live == h.live[p := t.live[p]] && size <= t.live[p] < size + NODE
  {
  }

  lemma {:induction false} FitResult(h: Heap, i: nat, size: int)
    requires Valid(h) && i < |h.free| && 0 <= size <= h.free[i].size
    ensures var Allocated(t, p) := Take(h, i, size);
            p !in h.live && p in t.live && t.live == h.live[p := t.live[p]] && size <= t.live[p] < size + NODE
  {
    FreeBlockHeld(h, i);
    ValidCutClear(h, i, size);
    hide Valid, Take;
    TakeResult(h, i, size);
  }

  lemma {:induction false} GrownResult(h: Heap, size: int, at: int, mode: Mode)
    requires Valid(h) && 0 <= size && h.brk <= at && at + Chunk(size, mode) <= HEAP_END
    requires if MergesLast(h.free, at, mode) then h.free[|h.free| - 1].End() == at
             else size <= Chunk(size, mode) - HEADER
    ensures var g := Grow(h, size, at, mode);
            var Allocated(t, p) := Take(g, |g.free| - 1, size);
            p !in h.live && p in t.live && t.live == h.live[p := t.live[p]] && size <= t.live[p] < size + NODE
  {
    var g := Grow(h, size, at, mode);
    ChunkSuffices(size, mode);
    if MergesLast(h.free, at, mode) {
      FreeBlockSized(h, |h.free| - 1);
      MergeValid(h, size, at, mode);
      hide Valid, Take, Chunk, Range;
      FitResult(g, |g.free| - 1, size);
    } else {
      LiveBelowChunk(h, at);
      hide Valid, Take, Chunk, Range;
      TakeResult(g, |g.free| - 1, size);
    }
  }

  /** The block handed out is new, is at least as large as asked for and less
      than one node larger; no other live block changes. */
  lemma {:induction false} MallocResult(h: Heap, request: int, sbrk: Sbrk, mode: Mode)
    requires Valid(h) && 0 <= request <= MAX_REQUEST
    requires Answers(h, sbrk, Chunk(Wanted(request, mode), mode))
    requires Malloc(h, request, sbrk, mode).Allocated? && MallocSafe(h, request, sbrk, mode)
    ensures var Allocated(t, p) := Malloc(h, request, sbrk, mode);
            && p !in h.live && p in t.live && t.live == h.live[p := t.live[p]]
            && request <= t.live[p] < (if mode.Repaired? && request < 16 then 16 else request) + 24
  {
    hide Valid, Take, Grow;
    var size := Wanted(request, mode);
    var i := FirstFit(h.free, size);
    ChunkSuffices(size, mode);
    if i < |h.free| {
      FitResult(h, i, size);
    } else {
      hide Chunk;
      GrownResult(h, size, sbrk.addr, mode);
    }
  }

  /** A call that neither grows nor shrinks the heap keeps the bytes held. */
  lemma {:induction false} FitKeepsOwned(h: Heap, request: int, sbrk: Sbrk, mode: Mode)
    requires FirstFit(h.free, Wanted(request, mode)) < |h.free|
    ensures Malloc(h, request, sbrk, mode).Allocated?
    ensures var t := Malloc(h, request, sbrk, mode).heap; t.owned == h.owned && t.brk == h.brk
  {
  }

  lemma {:induction false} PositionIs(free: seq<Block>, p: int, i: nat)
    requires i <= |free| && (i < |free| ==> p < free[i].addr)
    requires forall k | 0 <= k < i :: free[k].addr <= p
    ensures Position(free, p) == i
  {
  }

  /** The front of a split block merges back with its tail only. */
  lemma {:induction false} InsertUndoesSplit(free: seq<Block>, i: nat, size: int)
    requires FreeListed(free) && i < |free| && 0 <= size && NODE <= free[i].size - size
    ensures var b := free[i];
            var cut := free[i := Block(b.addr + size + HEADER, b.size - size - HEADER)];
            Insert(cut, i, Block(b.addr, size)) == free
  {
    var b := free[i];
    var cut := free[i := Block(b.addr + size + HEADER, b.size - size - HEADER)];
    assert Join(Block(b.addr, size), cut[i]) == b;
    assert 0 < i ==> cut[i - 1] == free[i - 1] && free[i - 1].End() < b.addr;
    assert cut[..i] == free[..i] && cut[i + 1..] == free[i + 1..];
    assert free == free[..i] + [b] + free[i + 1..];
  }

  lemma {:induction false} InsertUndoesRemoval(free: seq<Block>, i: nat)
    requires FreeListed(free) && i < |free|
    ensures Insert(free[..i] + free[i + 1..], i, free[i]) == free
  {
    var b := free[i];
    var cut := free[..i] + free[i + 1..];
    assert i < |cut| ==> cut[i] == free[i + 1] && b.End() < free[i + 1].addr;
    assert 0 < i ==> cut[i - 1] == free[i - 1] && free[i - 1].End() < b.addr;
    assert cut[..i] == free[..i] && cut[i..] == free[i + 1..];
    assert free == free[..i] + [b] + free[i + 1..];
  }

  lemma {:induction false} InsertUndoesTake(h: Heap, i: nat, size: int)
    requires FreeListed(h.free) && i < |h.free| && 0 <= size <= h.free[i].size < SIZE_SPACE
    requires CutClear(h, i, size)
    ensures var Allocated(t, p) := Take(h, i, size);
            i <= |t.free| && Insert(t.free, i, Block(p, t.live[p])) == h.free && t.owned == h.owned && t.brk == h.brk
  {
    hide Insert, FreeListed;
    if NODE <= h.free[i].size - size {
      InsertUndoesSplit(h.free, i, size);
    } else {
      InsertUndoesRemoval(h.free, i);
    }
  }

  lemma {:induction false} TakenPosition(h: Heap, i: nat, size: int)
    requires Valid(h) && i < |h.free| && 0 <= size <= h.free[i].size < SIZE_SPACE
    ensures Position(Take(h, i, size).heap.free, h.free[i].addr) == i
  {
    hide Tiles, LinksFit;
    var t := Take(h, i, size).heap;
    forall k | 0 <= k < i
      ensures t.free[k].addr <= h.free[i].addr
    {
      FreeBlockHeld(h, k);
      FreeBlockSized(h, k);
      assert h.free[k].End() < h.free[i].addr;
    }
    forall k | i <= k < |t.free|
      ensures h.free[i].addr < t.free[k].addr
    {
      var k' := TakeShrinks(h, i, size, k);
      assert i < k' ==> h.free[i].End() < h.free[k'].addr;
    }
    PositionIs(t.free, h.free[i].addr, i);
  }

  lemma {:induction false} FreeBlockSized(h: Heap, i: nat)
    requires Valid(h) && i < |h.free|
    ensures LINKS <= h.free[i].size
  {
  }

  lemma {:induction false} FreeUndoesTake(h: Heap, i: nat, size: int)
    requires Valid(h) && i < |h.free| && 0 <= size <= h.free[i].size
    ensures var Allocated(t, p) := Take(h, i, size); p in t.live && Released(t, p, h.brk) == h
  {
    FreeBlockHeld(h, i);
    ValidCutClear(h, i, size);
    TakenPosition(h, i, size);
    InsertUndoesTake(h, i, size);
    TakeResult(h, i, size);
    hide Valid, Insert, Take, Position, FreeListed, CutClear;
    assert Take(h, i, size).heap.live - {h.free[i].addr} == h.live;
  }

  /** `my_free` undoes a `my_malloc` served from the list: the block goes back to
      its place and merges with the tail it was cut from, and only with that. */
  lemma {:induction false} FreeUndoesMalloc(h: Heap, request: int, sbrk: Sbrk, mode: Mode)
    requires Valid(h) && 0 <= request <= MAX_REQUEST
    requires FirstFit(h.free, Wanted(request, mode)) < |h.free|
    ensures var Allocated(t, p) := Malloc(h, request, sbrk, mode);
            p in t.live && Released(t, p, h.brk) == h && Free(t, p, h.brk, mode) == Shrink(h, mode)
  {
    hide Valid, Take, Released, Shrink;
    FreeUndoesTake(h, FirstFit(h.free, Wanted(request, mode)), Wanted(request, mode));
  }

  /** Once nothing is live, every free block is a whole contiguous region of the
      bytes held: it is held throughout and the bytes on either side are not. */
  lemma {:induction false} AllFreeIsOneBlockPerRegion(h: Heap, i: nat)
    requires Valid(h) && h.live == map[] && i < |h.free|
    ensures forall a | h.free[i].Spans(a) :: a in h.owned
    ensures h.free[i].addr - 1 !in h.owned && h.free[i].End() !in h.owned
  {
  }

  /* ----- whole runs ----- */

  datatype Call = CallMalloc(request: int, sbrk: Sbrk) | CallFree(addr: int, brk: int)

  /** What the callers and the operating system must respect: sizes in range,
      only live blocks are freed, and the break never moves below ours. */
  predicate Permitted(h: Heap, call: Call, mode: Mode) {
    match call
    case CallMalloc(request, sbrk) =>
      0 <= request <= MAX_REQUEST && Answers(h, sbrk, Chunk(Wanted(request, mode), mode)) &&
      Malloc(h, request, sbrk, mode).Allocated?
    case CallFree(p, brk) => p in h.live && h.brk <= brk <= HEAP_END
  }

  function After(h: Heap, call: Call, mode: Mode): Heap
    requires Permitted(h, call, mode)
  {
    match call
    case CallMalloc(request, sbrk) => Malloc(h, request, sbrk, mode).heap
    case CallFree(p, brk) => Free(h, p, brk, mode)
  }

  predicate Safe(h: Heap, call: Call, mode: Mode)
    requires Permitted(h, call, mode)
  {
    match call
    case CallMalloc(request, sbrk) => MallocSafe(h, request, sbrk, mode)
    case CallFree(p, brk) => FreeSafe(h, p, brk, mode)
  }

  predicate IsRun(h: Heap, calls: seq<Call>, mode: Mode)
    decreases |calls|
  {
    calls == [] || (Permitted(h, calls[0], mode) && IsRun(After(h, calls[0], mode), calls[1..], mode))
  }

  predicate AllSafe(h: Heap, calls: seq<Call>, mode: Mode)
    requires IsRun(h, calls, mode)
    decreases |calls|
  {
    calls == [] || (Safe(h, calls[0], mode) && AllSafe(After(h, calls[0], mode), calls[1..], mode))
  }

  function Final(h: Heap, calls: seq<Call>, mode: Mode): Heap
    requires IsRun(h, calls, mode)
    decreases |calls|
  {
    if calls == [] then h else Final(After(h, calls[0], mode), calls[1..], mode)
  }

  lemma {:induction false} CallValid(h: Heap, call: Call, mode: Mode)
    requires Valid(h) && Permitted(h, call, mode)
    ensures Valid(After(h, call, mode)) <==> Safe(h, call, mode)
  {
    hide Valid, Malloc, Free, MallocSafe, FreeSafe;
    match call
    case CallMalloc(request, sbrk) => MallocValid(h, request, sbrk, mode);
    case CallFree(p, brk) => FreeValid(h, p, brk, mode);
  }

  /** Any run from a well-formed heap whose calls are all safe ends in a
      well-formed heap. */
  lemma {:induction false} SafeRunsValid(h: Heap, calls: seq<Call>, mode: Mode)
    requires Valid(h) && IsRun(h, calls, mode) && AllSafe(h, calls, mode)
    ensures Valid(Final(h, calls, mode))
    decreases |calls|
  {
    hide Valid, Permitted, Safe, After;
    if calls != [] {
      CallValid(h, calls[0], mode);
      SafeRunsValid(After(h, calls[0], mode), calls[1..], mode);
    }
  }

  lemma {:induction false} RepairedRunsSafe(h: Heap, calls: seq<Call>)
    requires IsRun(h, calls, Repaired)
    ensures AllSafe(h, calls, Repaired)
    decreases |calls|
  {
    hide Valid, Malloc, Free, After, Permitted;
    if calls != [] {
      RepairedRunsSafe(After(h, calls[0], Repaired), calls[1..]);
    }
  }

  lemma {:induction false} FreshValid(start: int)
    requires HEAP_START <= start <= HEAP_END
    ensures Valid(Fresh(start))
  {
  }

  /** In the repaired reading every run from a fresh heap keeps the blocks
      disjoint, coalesced and tiling the memory held. */
  lemma {:induction false} RepairedRunsValid(start: int, calls: seq<Call>)
    requires HEAP_START <= start <= HEAP_END && IsRun(Fresh(start), calls, Repaired)
    ensures Valid(Final(Fresh(start), calls, Repaired))
  {
    FreshValid(start);
    RepairedRunsSafe(Fresh(start), calls);
    SafeRunsValid(Fresh(start), calls, Repaired);
  }

  /* ----- where the code as written goes wrong ----- */

  lemma {:induction false} MainHeap(start: int)
    ensures var Allocated(h, p) := Malloc(Fresh(start), 10240, OldBreak(start), AsWritten);
            && h.brk == start + 11264 && p == start && p in h.live
            && Released(h, p, h.brk).free == [Block(start, 11256)]
  {
    hide Range;
    var h := Malloc(Fresh(start), 10240, OldBreak(start), AsWritten).heap;
    var b := Block(start + 10248, 1008);
    assert h.free == [b] && h.live == map[start := 10240];
    assert Insert([b], 0, Block(start, 10240)) == [Block(start, 11256)];
  }

  lemma {:induction false} MainShrinks(h: Heap, start: int)
    requires start in h.live && Released(h, start, h.brk).free == [Block(start, 11256)] && h.brk == start + 11264
    ensures var f := Free(h, start, h.brk, AsWritten);
            f.free == [Block(start, 11256)] && f.brk == start + 1024 < f.free[0].End()
  {
    hide Range;
  }

  /** The program's own `main`: `my_malloc(10240)` and then `my_free` leaves a
      free block that reaches past the break. */
  lemma {:induction false} MainBreaksHeap(start: int)
    requires HEAP_START <= start <= HEAP_END - 11264
    ensures var Allocated(h, p) := Malloc(Fresh(start), 10240, OldBreak(start), AsWritten);
            && Valid(h) && p in h.live && !Valid(Free(h, p, h.brk, AsWritten))
            && var f := Free(h, p, h.brk, AsWritten);
               f.free == [Block(start, 11256)] && f.brk == start + 1024 < f.free[0].End()
  {
    FreshValid(start);
    MallocValid(Fresh(start), 10240, OldBreak(start), AsWritten);
    MainHeap(start);
    MainShrinks(Malloc(Fresh(start), 10240, OldBreak(start), AsWritten).heap, start);
    hide Valid, Free, Malloc, Range;
    FreeValid(Malloc(Fresh(start), 10240, OldBreak(start), AsWritten).heap, start, start + 11264, AsWritten);
  }

  /** A first request of 1020 bytes gets a chunk of 1024 with no room for the header. */
  lemma {:induction false} NoRoomForHeader(start: int)
    requires HEAP_START <= start <= HEAP_END - STEP
    ensures !Valid(Malloc(Fresh(start), 1020, OldBreak(start), AsWritten).heap)
  {
    FreshValid(start);
    MallocValid(Fresh(start), 1020, OldBreak(start), AsWritten);
  }

  // The heaps of a run of four safe calls: allocate 824, 100 and 76 bytes, free the 100.
  function RunHeap(start: int, free: seq<Block>, live: map<int, int>): Heap {
    Heap(free, live, Range(start, start + STEP), start + STEP)
  }

  function Live3(s: int): map<int, int> { map[s := 824, s + 832 := 100, s + 940 := 76] }

  lemma {:induction false} FourSafeCalls(s: int)
    ensures Malloc(Fresh(s), 824, OldBreak(s), AsWritten) ==
            Allocated(RunHeap(s, [Block(s + 832, 184)], map[s := 824]), s)
    ensures Malloc(RunHeap(s, [Block(s + 832, 184)], map[s := 824]), 100, NoMemory, AsWritten) ==
            Allocated(RunHeap(s, [Block(s + 940, 76)], map[s := 824, s + 832 := 100]), s + 832)
    ensures Malloc(RunHeap(s, [Block(s + 940, 76)], map[s := 824, s + 832 := 100]), 76, NoMemory, AsWritten) ==
            Allocated(RunHeap(s, [], Live3(s)), s + 940)
    ensures Free(RunHeap(s, [], Live3(s)), s + 832, s + STEP, AsWritten) ==
            RunHeap(s, [Block(s + 832, 100)], Live3(s) - {s + 832})
  {
    hide Range;
    var none: seq<Block> := [];
    assert none[..0] + [Block(s + 832, 100)] + none[0..] == [Block(s + 832, 100)];
    assert {} + Range(s, s + STEP) == Range(s, s + STEP);
  }

  function FourCalls(s: int): seq<Call> {
    [CallMalloc(824, OldBreak(s)), CallMalloc(100, NoMemory), CallMalloc(76, NoMemory), CallFree(s + 832, s + STEP)]
  }

  lemma {:induction false} RunFirst(h: Heap, calls: seq<Call>, mode: Mode)
    requires calls != [] && Permitted(h, calls[0], mode)
    ensures IsRun(h, calls, mode) <==> IsRun(After(h, calls[0], mode), calls[1..], mode)
    ensures IsRun(h, calls, mode) && Safe(h, calls[0], mode) ==>
              (AllSafe(h, calls, mode) <==> AllSafe(After(h, calls[0], mode), calls[1..], mode)) &&
              Final(h, calls, mode) == Final(After(h, calls[0], mode), calls[1..], mode)
  {
  }

  /** They may be made one after the other, and each keeps the heap well-formed. */
  lemma {:induction false} FourCallsRun(s: int)
    requires HEAP_START <= s <= HEAP_END - 2 * STEP
    ensures IsRun(Fresh(s), FourCalls(s), AsWritten) && AllSafe(Fresh(s), FourCalls(s), AsWritten)
    ensures Final(Fresh(s), FourCalls(s), AsWritten) == RunHeap(s, [Block(s + 832, 100)], Live3(s) - {s + 832})
  {
    FourSafeCalls(s);
    var calls := FourCalls(s);
    var h1 := RunHeap(s, [Block(s + 832, 184)], map[s := 824]);
    var h2 := RunHeap(s, [Block(s + 940, 76)], map[s := 824, s + 832 := 100]);
    var h3 := RunHeap(s, [], Live3(s));
    FourSafe(s);
    hide Malloc, Free, MallocSafe, FreeSafe, RunHeap, Range, IsRun, AllSafe, Final;
    RunFirst(Fresh(s), calls, AsWritten);
    RunFirst(h1, calls[1..], AsWritten);
    RunFirst(h2, calls[1..][1..], AsWritten);
    RunFirst(h3, calls[1..][1..][1..], AsWritten);
    assert calls[1..][1..][1..][1..] == [];
  }

  lemma {:induction false} FourSafe(s: int)
    requires HEAP_START <= s <= HEAP_END - 2 * STEP
    ensures Permitted(Fresh(s), FourCalls(s)[0], AsWritten) && Safe(Fresh(s), FourCalls(s)[0], AsWritten)
    ensures var h := RunHeap(s, [Block(s + 832, 184)], map[s := 824]);
            Permitted(h, FourCalls(s)[1], AsWritten) && Safe(h, FourCalls(s)[1], AsWritten)
    ensures var h := RunHeap(s, [Block(s + 940, 76)], map[s := 824, s + 832 := 100]);
            Permitted(h, FourCalls(s)[2], AsWritten) && Safe(h, FourCalls(s)[2], AsWritten)
    ensures var h := RunHeap(s, [], Live3(s));
            Permitted(h, FourCalls(s)[3], AsWritten) && Safe(h, FourCalls(s)[3], AsWritten)
  {
    hide Range;
    FourSafeCalls(s);
    assert [][..0] + [Block(s + 832, 100)] + [][0..] == [Block(s + 832, 100)];
  }

  /** Four safe calls reach a heap whose last free block starts 192 bytes below
      the break with a live block after it; growing it then merges the new
      chunk into that block although the two do not touch. */
  lemma {:induction false} MergesWithWrongBlock(s: int)
    requires HEAP_START <= s <= HEAP_END - 2 * STEP
    ensures IsRun(Fresh(s), FourCalls(s), AsWritten) && AllSafe(Fresh(s), FourCalls(s), AsWritten)
    ensures var h := Final(Fresh(s), FourCalls(s), AsWritten);
            && Valid(h) && MergesLast(h.free, h.brk, AsWritten) && h.free[|h.free| - 1].End() < h.brk
            && !Valid(Malloc(h, 200, OldBreak(h.brk), AsWritten).heap)
  {
    FreshValid(s);
    FourCallsRun(s);
    WrongBlock(s);
    var h := RunHeap(s, [Block(s + 832, 100)], Live3(s) - {s + 832});
    hide Valid, Free, Take, FourCalls, RunHeap, Malloc, MallocSafe, IsRun, AllSafe, Final;
    SafeRunsValid(Fresh(s), FourCalls(s), AsWritten);
    MallocValid(h, 200, OldBreak(h.brk), AsWritten);
  }

  /** The block that a next chunk is merged into, and does not touch. */
  lemma {:induction false} WrongBlock(s: int)
    requires HEAP_START <= s <= HEAP_END - 2 * STEP
    ensures var h := RunHeap(s, [Block(s + 832, 100)], Live3(s) - {s + 832});
            && h.free != [] && MergesLast(h.free, h.brk, AsWritten) && h.free[|h.free| - 1].End() < h.brk
            && !MallocSafe(h, 200, OldBreak(h.brk), AsWritten)
            && Malloc(h, 200, OldBreak(h.brk), AsWritten).Allocated?
            && Answers(h, OldBreak(h.brk), Chunk(Wanted(200, AsWritten), AsWritten))
  {
    hide Range, Take;
    var h := RunHeap(s, [Block(s + 832, 100)], Live3(s) - {s + 832});
    assert FirstFit(h.free, 200) == 1;
  }
}
