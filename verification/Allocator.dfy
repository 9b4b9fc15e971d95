/** `my_malloc` and `my_free` over the memory they run on: block headers at
    addresses, linked into a circular list through a static list head. */
module Allocator {
  import opened AllocatorSpec
  import Proofs = AllocatorProofs

  const LIST_HEAD := 0  // address of the static list head

  /** The k-th node of the circular list: the head, the free blocks, the head again. */
  function Node(list: seq<int>, k: int): int {
    if 0 < k <= |list| then list[k - 1] else LIST_HEAD
  }

  predicate Increasing(list: seq<int>) {
    && (forall i | 0 <= i < |list| :: LIST_HEAD < list[i])
    && (forall i, j | 0 <= i < j < |list| :: list[i] < list[j])
  }

  /** The links from node k to node k + 1 and back. */
  predicate LinkedAt(list: seq<int>, prev: map<int, int>, next: map<int, int>, k: int) {
    && Node(list, k) in next && next[Node(list, k)] == Node(list, k + 1)
    && Node(list, k + 1) in prev && prev[Node(list, k + 1)] == Node(list, k)
  }

  /** The links form one circle through the head and the blocks of `list`, in that order. */
  predicate Circular(list: seq<int>, prev: map<int, int>, next: map<int, int>) {
    Increasing(list) && forall k | 0 <= k <= |list| :: LinkedAt(list, prev, next, k)
  }

  predicate Sized(list: seq<int>, size: map<int, int>) {
    forall i | 0 <= i < |list| :: list[i] in size
  }

  function Blocks(list: seq<int>, size: map<int, int>): (r: seq<Block>)
    requires Sized(list, size)
    ensures |r| == |list| && forall i | 0 <= i < |r| :: r[i] == Block(list[i], size[list[i]])
  {
    seq(|list|, i requires 0 <= i < |list| => Block(list[i], size[list[i]]))
  }

  function LiveSizes(live: set<int>, size: map<int, int>): map<int, int>
    requires live <= size.Keys
  {
    map p | p in live :: size[p]
  }

  lemma {:induction false} ResizedBlocks(list: seq<int>, size: map<int, int>, live: set<int>, i: nat, v: int)
    requires Increasing(list) && Sized(list, size) && i < |list| && live <= size.Keys && list[i] !in live
    ensures var size' := size[list[i] := v];
            && Sized(list, size') && Blocks(list, size') == Blocks(list, size)[i := Block(list[i], v)]
            && LiveSizes(live, size') == LiveSizes(live, size)
  {
  }

  lemma {:induction false} IncreasingInsert(list: seq<int>, k: nat, x: int)
    requires Increasing(list) && k <= |list| && Node(list, k) < x && (k < |list| ==> x < list[k])
    ensures Increasing(list[..k] + [x] + list[k..])
  {
  }

  /** The nodes of a list with `x` put in after node k. */
  lemma {:induction false} InsertedNode(list: seq<int>, k: nat, x: int, j: nat)
    requires k <= |list| && j <= |list| + 2
    ensures Node(list[..k] + [x] + list[k..], j) ==
            if j <= k then Node(list, j) else if j == k + 1 then x else Node(list, j - 1)
  {
  }

  /** Writing four links puts `x` between node k and node k + 1. */
  lemma {:induction false} InsertLinks(list: seq<int>, prev: map<int, int>, next: map<int, int>, k: nat, x: int)
    requires Circular(list, prev, next) && k <= |list|
    requires Node(list, k) < x && (k < |list| ==> x < list[k])
    ensures var list' := list[..k] + [x] + list[k..];
            var next' := next[x := Node(list, k + 1)][Node(list, k) := x];
            var prev' := prev[x := Node(list, k)][Node(list, k + 1) := x];
            Circular(list', prev', next')
  {
    var list' := list[..k] + [x] + list[k..];
    var next' := next[x := Node(list, k + 1)][Node(list, k) := x];
    var prev' := prev[x := Node(list, k)][Node(list, k + 1) := x];
    IncreasingInsert(list, k, x);
    forall j | 0 <= j <= |list'|
      ensures LinkedAt(list', prev', next', j)
    {
      InsertedNode(list, k, x, j);
      InsertedNode(list, k, x, j + 1);
      if j < k || k + 1 < j {
        var i := if j < k then j else j - 1;
        assert LinkedAt(list, prev, next, i);
      }
    }
  }

  lemma {:induction false} NotInList(list: seq<int>, i: nat, x: int)
    requires Increasing(list) && i <= |list| && Node(list, i) < x && (i < |list| ==> x < list[i])
    ensures x !in list && x != LIST_HEAD && forall k :: Node(list, k) != x
  {
  }

  /** Writing two links takes block i out. */
  lemma {:induction false} RemoveLinks(list: seq<int>, prev: map<int, int>, next: map<int, int>, i: nat)
    requires Circular(list, prev, next) && i < |list|
    ensures var list' := list[..i] + list[i + 1..];
            var next' := next[Node(list, i) := Node(list, i + 2)];
            var prev' := prev[Node(list, i + 2) := Node(list, i)];
            Circular(list', prev', next')
  {
    var list' := list[..i] + list[i + 1..];
    var next' := next[Node(list, i) := Node(list, i + 2)];
    var prev' := prev[Node(list, i + 2) := Node(list, i)];
    forall j | 0 <= j <= |list'|
      ensures LinkedAt(list', prev', next', j)
    {
      if j < i {
        assert LinkedAt(list, prev, next, j);
      } else if i < j {
        assert LinkedAt(list, prev, next, j + 1);
      }
    }
  }

  /** Links stored outside the circle do not matter. */
  lemma {:induction false} StaleLinks(list: seq<int>, prev: map<int, int>, next: map<int, int>, x: int, p: int, n: int)
    requires Circular(list, prev, next) && x != LIST_HEAD && x !in list
    ensures Circular(list, prev[x := p], next) && Circular(list, prev, next[x := n])
  {
    var prev', next' := prev[x := p], next[x := n];
    forall k | 0 <= k <= |list|
      ensures LinkedAt(list, prev', next, k)
    {
      assert LinkedAt(list, prev, next, k);
    }
    forall k | 0 <= k <= |list|
      ensures LinkedAt(list, prev, next', k)
    {
      assert LinkedAt(list, prev, next, k);
    }
  }

  /** Where the freed block stands in the list afterwards: before block i, in its
      place, or nowhere because it merged into the block below. */
  function MergedList(list: seq<int>, i: nat, ptr: int, upper: bool, lower: bool): seq<int>
    requires i <= |list| && (upper ==> i < |list|)
  {
    list[..i] + (if lower then [] else [ptr]) + (if upper then list[i + 1..] else list[i..])
  }

  function MergedNext(list: seq<int>, next: map<int, int>, i: nat, ptr: int, upper: bool, lower: bool): map<int, int> {
    var onward := Node(list, if upper then i + 2 else i + 1);
    next[ptr := onward][Node(list, i) := if lower then onward else ptr]
  }

  function MergedPrev(list: seq<int>, prev: map<int, int>, i: nat, ptr: int, upper: bool, lower: bool): map<int, int> {
    var onward := Node(list, if upper then i + 2 else i + 1);
    if lower then prev[onward := ptr][onward := Node(list, i)] else prev[onward := ptr][ptr := Node(list, i)]
  }

  lemma {:induction false} MergedLinksApart(list: seq<int>, prev: map<int, int>, next: map<int, int>, i: nat, ptr: int)
    requires Circular(list, prev, next) && i <= |list| && Node(list, i) < ptr && (i < |list| ==> ptr < list[i])
    ensures Circular(MergedList(list, i, ptr, false, false), MergedPrev(list, prev, i, ptr, false, false),
                     MergedNext(list, next, i, ptr, false, false))
  {
    NotInList(list, i, ptr);
    InsertLinks(list, prev, next, i, ptr);
    hide Circular;
    assert MergedPrev(list, prev, i, ptr, false, false) == prev[ptr := Node(list, i)][Node(list, i + 1) := ptr];
  }

  lemma {:induction false} MergedLinksLower(list: seq<int>, prev: map<int, int>, next: map<int, int>, i: nat, ptr: int)
    requires Circular(list, prev, next) && 0 < i <= |list| && Node(list, i) < ptr && (i < |list| ==> ptr < list[i])
    ensures Circular(MergedList(list, i, ptr, false, true), MergedPrev(list, prev, i, ptr, false, true),
                     MergedNext(list, next, i, ptr, false, true))
  {
    NotInList(list, i, ptr);
    var onward := Node(list, i + 1);
    StaleLinks(list, prev, next, ptr, 0, onward);
    assert LinkedAt(list, prev, next, i);
    hide Circular;
    assert MergedList(list, i, ptr, false, true) == list;
    assert MergedNext(list, next, i, ptr, false, true) == next[ptr := onward];
    assert MergedPrev(list, prev, i, ptr, false, true) == prev;
  }

  lemma {:induction false} WriteOrder(m: map<int, int>, a: int, b: int, x: int, y: int, z: int)
    requires a != b
    ensures m[b := y][a := x][b := z] == m[a := x][b := z] == m[b := z][a := x]
  {
  }

  lemma {:induction false} MergedLinksUpper(list: seq<int>, prev: map<int, int>, next: map<int, int>, i: nat, ptr: int)
    requires Circular(list, prev, next) && i < |list| && Node(list, i) < ptr < list[i]
    ensures Circular(MergedList(list, i, ptr, true, false), MergedPrev(list, prev, i, ptr, true, false),
                     MergedNext(list, next, i, ptr, true, false))
  {
    NotInList(list, i, ptr);
    RemoveLinks(list, prev, next, i);
    var rest := list[..i] + list[i + 1..];
    var below, onward := Node(list, i), Node(list, i + 2);
    assert i < |rest| ==> rest[i] == list[i + 1] && ptr < list[i] < list[i + 1];
    assert rest[..i] == list[..i] && rest[i..] == list[i + 1..];
    assert Node(rest, i) == below && Node(rest, i + 1) == onward;
    assert ptr != below && ptr != onward;
    hide Circular, Increasing;
    InsertLinks(rest, prev[onward := below], next[below := onward], i, ptr);
    WriteOrder(next, ptr, below, onward, onward, ptr);
    WriteOrder(prev, ptr, onward, below, below, ptr);
  }

  lemma {:induction false} MergedLinksBoth(list: seq<int>, prev: map<int, int>, next: map<int, int>, i: nat, ptr: int)
    requires Circular(list, prev, next) && 0 < i < |list| && Node(list, i) < ptr < list[i]
    ensures Circular(MergedList(list, i, ptr, true, true), MergedPrev(list, prev, i, ptr, true, true),
                     MergedNext(list, next, i, ptr, true, true))
  {
    NotInList(list, i, ptr);
    RemoveLinks(list, prev, next, i);
    var rest := list[..i] + list[i + 1..];
    var below, onward := Node(list, i), Node(list, i + 2);
    assert ptr !in rest;
    StaleLinks(rest, prev[onward := below], next[below := onward], ptr, 0, onward);
    hide Circular;
    assert MergedList(list, i, ptr, true, true) == rest;
    assert MergedNext(list, next, i, ptr, true, true) == next[below := onward][ptr := onward];
    assert MergedPrev(list, prev, i, ptr, true, true) == prev[onward := below];
  }

  /** The links `my_free` leaves, for each of the four ways of merging. */
  lemma {:induction false} MergedLinks(list: seq<int>, prev: map<int, int>, next: map<int, int>, i: nat, ptr: int, upper: bool, lower: bool)
    requires Circular(list, prev, next) && i <= |list| && Node(list, i) < ptr && (i < |list| ==> ptr < list[i])
    requires (upper ==> i < |list|) && (lower ==> 0 < i)
    ensures Circular(MergedList(list, i, ptr, upper, lower), MergedPrev(list, prev, i, ptr, upper, lower),
                     MergedNext(list, next, i, ptr, upper, lower))
  {
    hide Circular, MergedList, MergedPrev, MergedNext;
    match (upper, lower)
    case (false, false) => MergedLinksApart(list, prev, next, i, ptr);
    case (false, true) => MergedLinksLower(list, prev, next, i, ptr);
    case (true, false) => MergedLinksUpper(list, prev, next, i, ptr);
    case (true, true) => MergedLinksBoth(list, prev, next, i, ptr);
  }

  function MergedSize(list: seq<int>, size: map<int, int>, i: nat, ptr: int, upper: bool, lower: bool): map<int, int>
    requires Sized(list, size) && ptr in size && i <= |list| && (upper ==> i < |list|) && (lower ==> 0 < i)
  {
    var s := if upper then size[ptr := size[ptr] + size[list[i]] + HEADER] else size;
    if lower then s[list[i - 1] := s[list[i - 1]] + s[ptr] + HEADER] else s
  }

  lemma {:induction false} InsertShape(free: seq<Block>, i: nat, b: Block, c: Block)
    requires i <= |free|
    requires var upper := i < |free| && b.End() == free[i].addr;
             var lower := 0 < i && free[i - 1].End() == b.addr;
             var d := if upper then Join(b, free[i]) else b;
             c == if lower then Join(free[i - 1], d) else d
    ensures var upper := i < |free| && b.End() == free[i].addr;
            var lower := 0 < i && free[i - 1].End() == b.addr;
            Insert(free, i, b) == free[..if lower then i - 1 else i] + [c] + free[if upper then i + 1 else i..]
  {
  }

  /** The blocks the list stands for after the merge are those of `Insert`. */
  lemma {:induction false} MergedBlocks(list: seq<int>, size: map<int, int>, i: nat, ptr: int)
    requires Increasing(list) && Sized(list, size) && ptr in size && i <= |list| && ptr !in list
    ensures var upper := i < |list| && ptr + size[ptr] + HEADER == list[i];
            var lower := 0 < i && list[i - 1] + size[list[i - 1]] + HEADER == ptr;
            var list', size' := MergedList(list, i, ptr, upper, lower), MergedSize(list, size, i, ptr, upper, lower);
            Sized(list', size') &&
            Blocks(list', size') == Insert(Blocks(list, size), i, Block(ptr, size[ptr]))
  {
    var upper := i < |list| && ptr + size[ptr] + HEADER == list[i];
    var lower := 0 < i && list[i - 1] + size[list[i - 1]] + HEADER == ptr;
    var free := Blocks(list, size);
    assert upper == (i < |free| && Block(ptr, size[ptr]).End() == free[i].addr);
    assert lower == (0 < i && free[i - 1].End() == ptr);
    var size' := MergedSize(list, size, i, ptr, upper, lower);
    var at := if lower then list[i - 1] else ptr;
    MergedCore(list, size, i, ptr, upper, lower);
    hide Insert, Blocks, Sized, MergedSize, MergedList;
    InsertShape(free, i, Block(ptr, size[ptr]), Block(at, size'[at]));
  }

  lemma {:induction false} MergedCore(list: seq<int>, size: map<int, int>, i: nat, ptr: int, upper: bool, lower: bool)
    requires Increasing(list) && Sized(list, size) && ptr in size && i <= |list| && ptr !in list
    requires (upper ==> i < |list|) && (lower ==> 0 < i)
    ensures var size' := MergedSize(list, size, i, ptr, upper, lower);
            var j, m := if upper then i + 1 else i, if lower then i - 1 else i;
            var at := if lower then list[i - 1] else ptr;
            var list' := MergedList(list, i, ptr, upper, lower);
            && Sized(list', size') && at in size'
            && Blocks(list', size') == Blocks(list, size)[..m] + [Block(at, size'[at])] + Blocks(list, size)[j..]
  {
  }

  /** No other live block changes size. */
  lemma {:induction false} MergedLive(list: seq<int>, live: set<int>, size: map<int, int>, i: nat, ptr: int, upper: bool, lower: bool)
    requires Sized(list, size) && live <= size.Keys && ptr in live && i <= |list|
    requires (upper ==> i < |list|) && (lower ==> 0 < i) && forall p | p in live :: p !in list
    ensures var size' := MergedSize(list, size, i, ptr, upper, lower);
            && live - {ptr} <= size'.Keys
            && LiveSizes(live - {ptr}, size') == LiveSizes(live, size) - {ptr}
  {
    var size' := MergedSize(list, size, i, ptr, upper, lower);
    assert forall p | p in live - {ptr} :: size'[p] == size[p];
    assert LiveSizes(live - {ptr}, size').Keys == live - {ptr};
  }

  datatype Returned = Exited | Pointer(addr: int)

  /** Growing: first the list, then the break. */
  lemma {:induction false} GrownInTwo(h: Heap, size: int, at: int, mode: Mode)
    ensures var n, last := Chunk(size, mode), |h.free| - 1;
            (MergesLast(h.free, at, mode) ==> h.free != []) &&
            Grow(h, size, at, mode) ==
            h.(free := if MergesLast(h.free, at, mode)
                       then h.free[last := Block(h.free[last].addr, h.free[last].size + n)]
                       else h.free + [Block(at, n - HEADER)])
            .(owned := h.owned + Range(at, at + n), brk := at + n)
  {
  }

  class FreeListAllocator {
    var blockSize: map<int, int>  // the three header fields, by address of the header
    var prev: map<int, int>
    var next: map<int, int>
    var brk: int
    const mode: Mode

    ghost var list: seq<int>      // the free blocks in list order
    ghost var live: set<int>      // the blocks handed out
    ghost var owned: set<int>     // the bytes obtained from sbrk and not returned

    ghost predicate Linked()
      reads this
    {
      Circular(list, prev, next) && Sized(list, blockSize) && live <= blockSize.Keys
    }

    ghost function Abs(): (h: Heap)
      requires Linked()
      reads this
      ensures |h.free| == |list| && (forall i | 0 <= i < |list| :: h.free[i].addr == list[i]) && h.live.Keys == live && h.brk == brk
    {
      Heap(Blocks(list, blockSize), LiveSizes(live, blockSize), owned, brk)
    }

    ghost predicate Inv()
      reads this
    {
      Linked() && Valid(Abs())
    }

    constructor (start: int, mode: Mode)
      requires HEAP_START <= start <= HEAP_END
      ensures Inv() && Abs() == Fresh(start) && this.mode == mode
    {
      blockSize, prev, next := map[LIST_HEAD := 0], map[LIST_HEAD := LIST_HEAD], map[LIST_HEAD := LIST_HEAD];
      brk, this.mode := start, mode;
      list, live, owned := [], {}, {};
      new;
      Proofs.FreshValid(start);
      assert Abs() == Fresh(start);
    }

    /** Everything in a well-formed heap lies below a chunk at or above the break. */
    lemma {:induction false} BelowChunk(at: int)
      requires Inv() && brk <= at
      ensures LIST_HEAD <= Node(list, |list|) < at && at !in live && Node(list, |list|) !in live
    {
      if LIST_HEAD in live {
        Proofs.LiveBlockHeld(Abs(), LIST_HEAD);
        assert false;
      }
      if list != [] {
        Proofs.FreeBlockHeld(Abs(), |list| - 1);
        Proofs.FreeBlockSized(Abs(), |list| - 1);
      }
      if at in live {
        Proofs.LiveBlockHeld(Abs(), at);
        assert false;
      }
    }

    /** Make the chunk at `at` the last block of the list. */
    method Append(at: int, size: int)
      requires Linked() && Node(list, |list|) < at && at !in live
      modifies this`blockSize, this`prev, this`next, this`list
      ensures Linked() && list == old(list) + [at]
      ensures Abs() == old(Abs()).(free := old(Abs()).free + [Block(at, size)])
    {
      assert LinkedAt(list, prev, next, |list|);
      InsertLinks(list, prev, next, |list|, at);
      hide Circular, Blocks, LiveSizes;
      assert list[..|list|] + [at] + list[|list|..] == list + [at];
      blockSize := blockSize[at := size];
      prev := prev[at := prev[LIST_HEAD]];
      next := next[at := LIST_HEAD];
      next := next[prev[LIST_HEAD] := at];
      prev := prev[LIST_HEAD := at];
      list := list + [at];
    }

    /** Enlarge the last block of the list by `n` bytes. */
    method Enlarge(last: int, n: int)
      requires Linked() && list != [] && last == list[|list| - 1] && last !in live
      modifies this`blockSize
      ensures Linked()
      ensures var i := |list| - 1;
              Abs() == old(Abs()).(free := old(Abs()).free[i := Block(last, old(Abs()).free[i].size + n)])
    {
      ResizedBlocks(list, blockSize, live, |list| - 1, blockSize[last] + n);
      hide Circular, LiveSizes;
      blockSize := blockSize[last := blockSize[last] + n];
    }

    /** Is the chunk at `at` to be merged into the last block of the list? */
    method Touches(at: int) returns (touches: bool, last: int)
      requires Linked() && HEAP_START <= at
      ensures touches == MergesLast(Abs().free, at, mode)
      ensures list != [] ==> last == list[|list| - 1]
    {
      TouchesLast(at);
      hide Circular, Blocks, LiveSizes;
      last := prev[LIST_HEAD];
      touches := if mode.Repaired? then last != LIST_HEAD && last + blockSize[last] + HEADER == at
                 else last + HEADER * NODE == at;
    }

    /** Enlarge the last block by the chunk at `at`, or make the chunk the last block. */
    method Extend(size: int, at: int)
      requires Inv() && 0 <= size && brk <= at && at + Chunk(size, mode) <= HEAP_END
      modifies this
      ensures Linked() && live == old(live) && list != []
      ensures list[|list| - 1] == if |list| == |old(list)| then old(list)[|list| - 1] else at
      ensures Abs() == Grow(old(Abs()), size, at, mode)
    {
      BelowChunk(at);
      assert HEAP_START <= brk;
      GrownInTwo(Abs(), size, at, mode);
      hide Valid, Range, Chunk, Linked, Abs, Grow, MergesLast;
      var n := Chunk(size, mode);
      var touches, last := Touches(at);
      if touches {
        Enlarge(last, n);
      } else {
        Append(at, n - HEADER);
      }
      Occupy(at, n);
    }

    /** The break moves up over the chunk. */
    method Occupy(at: int, n: int)
      requires Linked()
      modifies this`brk, this`owned
      ensures Linked() && Abs() == old(Abs()).(owned := old(Abs()).owned + Range(at, at + n), brk := at + n)
    {
      brk := at + n;
      owned := owned + Range(at, at + n);
    }

    /** Cut block `ptr`, the i-th of the list, so that it keeps `size` bytes. */
    method Split(ptr: int, size: int, ghost i: nat)
      requires Linked() && i < |list| && ptr == list[i]
      requires 0 <= size && forall j | i < j < |list| :: ptr + size + HEADER < list[j]
      modifies this`blockSize, this`prev, this`next, this`list
      ensures Linked() && list == old(list)[..i + 1] + [ptr + size + HEADER] + old(list)[i + 1..]
      ensures blockSize == old(blockSize)[ptr + size + HEADER := WrapSub(WrapSub(old(blockSize)[ptr], size), HEADER)]
                           [ptr := size]
    {
      assert LinkedAt(list, prev, next, i + 1);
      var tail := ptr + size + HEADER;
      InsertLinks(list, prev, next, i + 1, tail);
      next := next[tail := next[ptr]];
      prev := prev[tail := ptr];
      prev := prev[next[ptr] := tail];
      next := next[ptr := tail];
      blockSize := blockSize[tail := WrapSub(WrapSub(blockSize[ptr], size), HEADER)];
      blockSize := blockSize[ptr := size];
      list := list[..i + 1] + [tail] + list[i + 1..];
    }

    /** Take block `ptr`, the i-th, off the list. */
    method Unlink(ptr: int, ghost i: nat)
      requires Linked() && i < |list| && ptr == list[i]
      modifies this`prev, this`next, this`list, this`live
      ensures Linked() && list == old(list)[..i] + old(list)[i + 1..] && live == old(live) + {ptr}
    {
      assert LinkedAt(list, prev, next, i) && LinkedAt(list, prev, next, i + 1);
      RemoveLinks(list, prev, next, i);
      next := next[prev[ptr] := next[ptr]];
      prev := prev[next[ptr] := prev[ptr]];
      list, live := list[..i] + list[i + 1..], live + {ptr};
    }

    /** Cut the i-th block if its tail can be a block, and hand it out. */
    method Detach(ptr: int, size: int, ghost i: nat)
      requires Linked() && i < |list| && ptr == list[i] && ptr !in live
      requires 0 <= size && forall j | i < j < |list| :: ptr + size + HEADER < list[j]
      modifies this`blockSize, this`prev, this`next, this`list, this`live
      ensures Linked() && Abs() == Take(old(Abs()), i, size).heap
    {
      ghost var h := Abs();
      if NODE <= WrapSub(blockSize[ptr], size) {
        Split(ptr, size, i);
      }
      Unlink(ptr, i);
      assert Blocks(list, blockSize) == Take(h, i, size).heap.free;
      assert LiveSizes(live, blockSize) == Take(h, i, size).heap.live;
    }
  
    /** First fit: the first node of the list, from the front, that is large enough. */
    method Search(size: int) returns (ptr: int, ghost i: nat)
      requires Linked()
      ensures i == FirstFit(Abs().free, size) && ptr == Node(list, FirstFit(Abs().free, size) + 1)
      ensures ptr == LIST_HEAD <==> FirstFit(Abs().free, size) == |list|
    {
      assert LinkedAt(list, prev, next, 0);
      ptr, i := next[LIST_HEAD], 0;
      while ptr != LIST_HEAD
        invariant 0 <= i <= |list| && ptr == Node(list, i + 1)
        invariant ptr == LIST_HEAD <==> i == |list|
        invariant forall k | 0 <= k < i :: blockSize[list[k]] < size
        decreases |list| - i
      {
        if blockSize[ptr] >= size {
          break;
        }
        assert LinkedAt(list, prev, next, i + 1);
        ptr, i := next[ptr], i + 1;
      }
    }

    /** A block found in a well-formed heap is cut before the next one starts. */
    lemma {:induction false} FoundCanBeCut(i: nat, size: int)
      requires Inv() && i < |list| && 0 <= size <= blockSize[list[i]]
      ensures list[i] !in live && forall j | i < j < |list| :: list[i] + size + HEADER < list[j]
    {
    }

    /** The block to serve a request of `size` bytes from: the first that fits,
        else the last one after the heap has grown.  The list head means exit. */
    method Choose(size: int, sbrk: Sbrk) returns (ptr: int, ghost i: nat)
      requires Inv() && 0 <= size && Answers(Abs(), sbrk, Chunk(size, mode))
      modifies this
      ensures Linked() && live == old(live)
      ensures var h := old(Abs());
              if FirstFit(h.free, size) < |h.free| then ptr != LIST_HEAD && i == FirstFit(h.free, size) && Abs() == h
              else if sbrk.NoMemory? then ptr == LIST_HEAD && Abs() == h
              else ptr != LIST_HEAD && i == |list| - 1 && Abs() == Grow(h, size, sbrk.addr, mode)
      ensures ptr != LIST_HEAD ==> i < |list| && ptr == list[i] && ptr !in live &&
                                   forall j | i < j < |list| :: ptr + size + HEADER < list[j]
    {
      hide Valid, Circular, Chunk, Range, Grow;
      ptr, i := Search(size);
      if ptr != LIST_HEAD {
        FoundCanBeCut(i, size);
      } else if sbrk.OldBreak? {
        BelowChunk(sbrk.addr);
        Extend(size, sbrk.addr);
        LastNode();
        ptr, i := prev[LIST_HEAD], |list| - 1;
      }
    }

    lemma {:induction false} TouchesLast(at: int)
      requires Linked()
      ensures LIST_HEAD in prev && (prev[LIST_HEAD] != LIST_HEAD ==> prev[LIST_HEAD] in blockSize)
      ensures prev[LIST_HEAD] == LIST_HEAD <==> list == []
      ensures list != [] ==> Abs().free[|list| - 1] == Block(prev[LIST_HEAD], blockSize[prev[LIST_HEAD]])
    {
      assert LinkedAt(list, prev, next, |list|);
    }

    lemma {:induction false} LastNode()
      requires Linked() && list != []
      ensures LIST_HEAD in prev && prev[LIST_HEAD] == list[|list| - 1] && list[|list| - 1] != LIST_HEAD
      ensures list[|list| - 1] in blockSize
    {
      assert LinkedAt(list, prev, next, |list|);
    }

    /** `my_malloc`; `Exited` is the exit when memory runs out. */
    method MyMalloc(request: int, sbrk: Sbrk) returns (r: Returned)
      requires Inv() && 0 <= request <= MAX_REQUEST
      requires Answers(Abs(), sbrk, Chunk(Wanted(request, mode), mode))
      modifies this
      ensures Linked()
      ensures match Malloc(old(Abs()), request, sbrk, mode)
              case Exit => r == Exited && Abs() == old(Abs())
              case Allocated(h, p) => r == Pointer(p) && Abs() == h
      ensures r.Exited? || MallocSafe(old(Abs()), request, sbrk, mode) <==> Inv()
    {
      ghost var h := Abs();
      hide Valid, Take, Grow, MallocSafe, Chunk, Linked, Abs;
      var size := Wanted(request, mode);
      var ptr, i := Choose(size, sbrk);
      if ptr == LIST_HEAD {
        return Exited;
      }
      TakeAddress(i, size);
      Detach(ptr, size, i);
      Proofs.MallocValid(h, request, sbrk, mode);
      return Pointer(ptr);
    }

    lemma {:induction false} TakeAddress(i: nat, size: int)
      requires Linked() && i < |list|
      ensures Take(Abs(), i, size).addr == list[i]
    {
    }

    /** The first block of the list above `p`, and the one before it. */
    method Locate(p: int) returns (above: int, below: int, ghost i: nat)
      requires Linked()
      ensures i == Position(Abs().free, p)
      ensures above == Node(list, Position(Abs().free, p) + 1) && below == Node(list, Position(Abs().free, p))
    {
      assert LinkedAt(list, prev, next, 0);
      above, i := next[LIST_HEAD], 0;
      while above != LIST_HEAD
        invariant 0 <= i <= |list| && above == Node(list, i + 1)
        invariant above == LIST_HEAD <==> i == |list|
        invariant forall k | 0 <= k < i :: list[k] <= p
        decreases |list| - i
      {
        if p < above {
          break;
        }
        assert LinkedAt(list, prev, next, i + 1);
        above, i := next[above], i + 1;
      }
      assert LinkedAt(list, prev, next, i);
      below := prev[above];
      Proofs.PositionIs(Abs().free, p, i);
    }

    /** Link `ptr` to what follows, swallowing the block above if the two touch. */
    method JoinAbove(ptr: int, above: int) returns (upper: bool)
      requires ptr in blockSize && (above != LIST_HEAD ==> above in blockSize && above in next)
      modifies this`blockSize, this`prev, this`next
      ensures upper == (above != LIST_HEAD && ptr + old(blockSize)[ptr] + HEADER == above)
      ensures var onward := if upper then old(next)[above] else above;
              next == old(next)[ptr := onward] && prev == old(prev)[onward := ptr]
      ensures blockSize == if upper then old(blockSize)[ptr := old(blockSize)[ptr] + old(blockSize)[above] + HEADER]
                           else old(blockSize)
    {
      upper := above != LIST_HEAD && ptr + blockSize[ptr] + HEADER == above;
      if upper {
        next := next[ptr := next[above]];
        blockSize := blockSize[ptr := blockSize[ptr] + blockSize[above] + HEADER];
        prev := prev[next[ptr] := ptr];
      } else {
        next := next[ptr := above];
        prev := prev[above := ptr];
      }
    }

    /** Link `ptr` to what precedes, letting the block below swallow it if the two touch. */
    method JoinBelow(ptr: int, below: int) returns (lower: bool)
      requires ptr in blockSize && (below != LIST_HEAD ==> below in blockSize) && ptr in next
      modifies this`blockSize, this`prev, this`next
      ensures lower == (below != LIST_HEAD && below + old(blockSize)[below] + HEADER == ptr)
      ensures next == old(next)[below := if lower then old(next)[ptr] else ptr]
      ensures prev == if lower then old(prev)[old(next)[ptr] := below] else old(prev)[ptr := below]
      ensures blockSize == if lower then old(blockSize)[below := old(blockSize)[below] + old(blockSize)[ptr] + HEADER]
                           else old(blockSize)
    {
      lower := below != LIST_HEAD && below + blockSize[below] + HEADER == ptr;
      if lower {
        blockSize := blockSize[below := blockSize[below] + blockSize[ptr] + HEADER];
        next := next[below := next[ptr]];
        prev := prev[next[ptr] := below];
      } else {
        prev := prev[ptr := below];
        next := next[below := ptr];
      }
    }

    /** A live block stands strictly between its neighbours in the list. */
    lemma {:induction false} FreedFits(ptr: int, i: nat)
      requires Inv() && ptr in live && i == Position(Abs().free, ptr)
      ensures LIST_HEAD < ptr && Node(list, i) < ptr && (i < |list| ==> ptr < list[i])
      ensures forall p | p in live :: p !in list
    {
      var h := Abs();
      Proofs.LiveBlockHeld(h, ptr);
      forall k | 0 <= k < |list|
        ensures list[k] !in live
      {
        Proofs.FreeBlockHeld(h, k);
      }
      if 0 < i {
        assert h.free[i - 1].addr <= ptr;
      }
    }

    /** The two joins together. */
    method Join(ptr: int, above: int, below: int, ghost i: nat)
      requires Linked() && ptr in blockSize && ptr != LIST_HEAD && ptr !in list
      requires i <= |list| && above == Node(list, i + 1) && below == Node(list, i)
      modifies this`blockSize, this`prev, this`next
      ensures var upper := i < |list| && ptr + old(blockSize)[ptr] + HEADER == list[i];
              var lower := 0 < i && list[i - 1] + old(blockSize)[list[i - 1]] + HEADER == ptr;
              && next == MergedNext(list, old(next), i, ptr, upper, lower)
              && prev == MergedPrev(list, old(prev), i, ptr, upper, lower)
              && blockSize == MergedSize(list, old(blockSize), i, ptr, upper, lower)
    {
      assert i < |list| ==> LinkedAt(list, prev, next, i + 1) && list[i] in list && LIST_HEAD < list[i];
      assert 0 < i ==> list[i - 1] in list && LIST_HEAD < list[i - 1];
      assert 0 < i < |list| ==> list[i - 1] < list[i];
      hide Circular;
      var upper := JoinAbove(ptr, above);
      var lower := JoinBelow(ptr, below);
    }

    /** Put block `ptr` back on the list, between `below` and `above`. */
    method Merge(ptr: int, above: int, below: int, ghost i: nat)
      requires Inv() && ptr in live
      requires i == Position(Abs().free, ptr) && above == Node(list, i + 1) && below == Node(list, i)
      modifies this`blockSize, this`prev, this`next, this`list, this`live
      ensures Linked() && Abs() == Released(old(Abs()), ptr, brk) && list != []
    {
      FreedFits(ptr, i);
      ghost var upper := i < |list| && ptr + blockSize[ptr] + HEADER == list[i];
      ghost var lower := 0 < i && list[i - 1] + blockSize[list[i - 1]] + HEADER == ptr;
      MergedLinks(list, prev, next, i, ptr, upper, lower);
      MergedBlocks(list, blockSize, i, ptr);
      MergedLive(list, live, blockSize, i, ptr, upper, lower);
      hide Valid, Insert, Blocks, LiveSizes, Circular, Sized, MergedNext, MergedPrev, MergedSize;
      Join(ptr, above, below, i);
      list, live := MergedList(list, i, ptr, upper, lower), live - {ptr};
    }

    /** Lower the break if the last free block ends there. */
    method Trim(current: int)
      requires Linked() && list != [] && list[|list| - 1] !in live
      modifies this`blockSize, this`owned, this`brk
      ensures Linked() && Abs() == Shrink(old(Abs()).(brk := current), mode)
      ensures var r := old(Abs()).(brk := current);
              LINKS <= r.free[|r.free| - 1].size ==> exists n :: Proofs.GivenBack(r, Abs(), n, mode)
    {
      ghost var h := Abs();
      LastNode();
      hide Circular;
      brk := current;
      var last := prev[LIST_HEAD];
      if current == last + blockSize[last] + HEADER {
        var n := GiveBack(blockSize[last], mode);
        if mode.Repaired? {
          blockSize := blockSize[last := blockSize[last] - n];
        }
        owned := owned - Range(brk - n, brk);
        brk := brk - n;
      }
      assert Blocks(list, blockSize) == Shrink(h.(brk := current), mode).free;
      assert LiveSizes(live, blockSize) == h.live;
      ghost var r := h.(brk := current);
      if LINKS <= r.free[|r.free| - 1].size {
        ghost var given := Proofs.ShrinkGivesBack(r, mode);
      }
    }

    /** `my_free`; `current` is the answer of `sbrk(0)`. */
    method MyFree(ptr: int, current: int)
      requires Inv() && ptr in live && brk <= current <= HEAP_END
      modifies this
      ensures Linked() && Abs() == Free(old(Abs()), ptr, current, mode)
      ensures exists n :: Proofs.GivenBack(Released(old(Abs()), ptr, current), Abs(), n, mode)
      ensures Inv() <==> FreeSafe(old(Abs()), ptr, current, mode)
    {
      ghost var h := Abs();
      hide Valid, Insert, Shrink, FreeSafe, Linked, Abs;
      var above, below, i := Locate(ptr);
      Merge(ptr, above, below, i);
      Proofs.ReleasedValid(h, ptr, brk);
      Proofs.FreeBlockHeld(Abs(), |list| - 1);
      Trim(current);
      ghost var n := Proofs.FreeGivesBack(h, ptr, current, mode);
      Proofs.FreeValid(h, ptr, current, mode);
    }
  }
}
