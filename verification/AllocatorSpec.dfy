/** What one call of the free-list allocator does to the heap, seen as a value:
    the free blocks in address order, the live blocks, the bytes obtained from
    `sbrk` and not returned, and the program break.

    Two readings of the code are kept side by side.  `AsWritten` is the code
    line by line.  `Repaired` changes exactly four places: the test for merging
    a fresh chunk into the last free block, the amount asked of `sbrk`, the
    size left to the last block when memory is given back, and the smallest
    block handed out. */
module AllocatorSpec {

  const HEADER := 8                       // sizeof(size_t)
  const NODE := 24                        // sizeof(struct free_block_msg)
  const LINKS := 16                       // the two links a free block stores after its header
  const STEP := 1024                      // MEM_INC_SIZE
  const SIZE_SPACE := 0x1_0000_0000_0000_0000  // size_t arithmetic is modulo this
  const MAX_REQUEST := 0x7FFF_FFFF_FFFF_0000   // requests whose chunk fits sbrk's intptr_t argument
  const HEAP_START := 4096                // the heap lies above the static list head
  const HEAP_END := 0x8000_0000_0000_0000 // and no break is set beyond this

  datatype Mode = AsWritten | Repaired

  datatype Block = Block(addr: int, size: int) {
    function End(): int { addr + size + HEADER }

    predicate Spans(a: int) { addr <= a < End() }
  }

  /** The answer of `sbrk(n)`: no memory, or the old break, which other users
      of the heap may have moved up in the meantime. */
  datatype Sbrk = NoMemory | OldBreak(addr: int)

  datatype Heap = Heap(free: seq<Block>, live: map<int, int>, owned: set<int>, brk: int)

  datatype Outcome = Exit | Allocated(heap: Heap, addr: int)

  /* ----- the invariant ----- */

  /** Address order, disjointness and maximal coalescing of the free blocks in
      one: each ends strictly before any later one starts. */
  predicate FreeListed(free: seq<Block>) {
    forall i, j | 0 <= i < j < |free| :: free[i].End() < free[j].addr
  }

  predicate LiveApart(live: map<int, int>) {
    forall p, q | p in live && q in live && p < q :: Block(p, live[p]).End() <= q
  }

  predicate Apart(free: seq<Block>, live: map<int, int>) {
    forall i, p | 0 <= i < |free| && p in live ::
      free[i].End() <= p || Block(p, live[p]).End() <= free[i].addr
  }

  /** Every block can hold its two links once it is on the free list. */
  predicate LinksFit(h: Heap) {
    && (forall i | 0 <= i < |h.free| :: LINKS <= h.free[i].size)
    && (forall p | p in h.live :: LINKS <= h.live[p])
  }

  ghost predicate InFree(free: seq<Block>, a: int) {
    exists i :: 0 <= i < |free| && free[i].Spans(a)
  }

  ghost predicate InLive(live: map<int, int>, a: int) {
    exists p :: p in live && Block(p, live[p]).Spans(a)
  }

  /** The blocks cover the bytes obtained from `sbrk`, no more and no less. */
  ghost predicate Covers(h: Heap) {
    forall a :: a in h.owned <==> InFree(h.free, a) || InLive(h.live, a)
  }

  /** Free and live blocks, headers included, tile the memory held. */
  ghost predicate Tiles(h: Heap) {
    LiveApart(h.live) && Apart(h.free, h.live) && Covers(h)
  }

  predicate BelowBreak(h: Heap) {
    && HEAP_START <= h.brk <= HEAP_END
    && forall a | a in h.owned :: HEAP_START <= a < h.brk
  }

  ghost predicate Valid(h: Heap) {
    FreeListed(h.free) && Tiles(h) && LinksFit(h) && BelowBreak(h)
  }

  /** `sbrk(n)` fails or answers an address at or above the last known break. */
  predicate Answers(h: Heap, sbrk: Sbrk, n: int) {
    sbrk.OldBreak? ==> h.brk <= sbrk.addr && sbrk.addr + n <= HEAP_END
  }

  /** Before the first call: nothing held, the break at `start`. */
  function Fresh(start: int): Heap { Heap([], map[], {}, start) }

  function Range(lo: int, hi: int): (r: set<int>)
    ensures forall a :: a in r <==> lo <= a < hi
    decreases hi - lo
  {
    if hi <= lo then {} else {lo} + Range(lo + 1, hi)
  }

  /* ----- my_malloc ----- */

  function WrapSub(a: int, b: int): int { (a - b) % SIZE_SPACE }

  /** Index of the first free block that is large enough, |free| if there is none. */
  function FirstFit(free: seq<Block>, size: int): (i: nat)
    ensures i <= |free|
    ensures i < |free| ==> size <= free[i].size
    ensures forall k | 0 <= k < i :: free[k].size < size
  {
    if free == [] || size <= free[0].size then 0 else 1 + FirstFit(free[1..], size)
  }

  /** The size the search works with. */
  function Wanted(request: int, mode: Mode): int {
    if mode.Repaired? && request < LINKS then LINKS else request
  }

  /** The bytes asked of `sbrk`. */
  function Chunk(size: int, mode: Mode): int {
    STEP * ((if mode.Repaired? then size + HEADER else size) / STEP + 1)
  }

  /** Does the fresh chunk at `at` get merged into the last free block?  As
      written, the sum is pointer arithmetic over 24-byte structures with the
      list head's size 0, so it compares with the last address plus 8 * 24. */
  predicate MergesLast(free: seq<Block>, at: int, mode: Mode) {
    && free != []
    && if mode.Repaired? then free[|free| - 1].End() == at else free[|free| - 1].addr + HEADER * NODE == at
  }

  function Grow(h: Heap, size: int, at: int, mode: Mode): (g: Heap)
    ensures g.free != []
  {
    var n := Chunk(size, mode);
    var last := |h.free| - 1;
    h.(free := if MergesLast(h.free, at, mode)
               then h.free[last := Block(h.free[last].addr, h.free[last].size + n)]
               else h.free + [Block(at, n - HEADER)],
       owned := h.owned + Range(at, at + n),
       brk := at + n)
  }

  /** Would block `b` be cut so that `size` bytes are handed out? */
  predicate Splits(b: Block, size: int) { NODE <= WrapSub(b.size, size) }

  /** What is left of block `b` once its front is handed out. */
  function Tail(b: Block, size: int): Block {
    Block(b.addr + size + HEADER, WrapSub(WrapSub(b.size, size), HEADER))
  }

  /** Take block `i` off the list, giving its tail back if that can be a block.
      Writing the tail's header overwrites the header of a live block that
      starts there, should there be one. */
  function Take(h: Heap, i: nat, size: int): (r: Outcome)
    requires i < |h.free|
    ensures r.Allocated?
  {
    var b := h.free[i];
    if Splits(b, size) then
      var tail := Tail(b, size);
      var live := if tail.addr in h.live then h.live[tail.addr := tail.size] else h.live;
      Allocated(h.(free := h.free[i := tail], live := live[b.addr := size]), b.addr)
    else
      Allocated(h.(free := h.free[..i] + h.free[i + 1..], live := h.live[b.addr := b.size]), b.addr)
  }

  function Malloc(h: Heap, request: int, sbrk: Sbrk, mode: Mode): Outcome {
    var size := Wanted(request, mode);
    var i := FirstFit(h.free, size);
    if i < |h.free| then Take(h, i, size)
    else match sbrk
      case NoMemory => Exit
      case OldBreak(at) => var g := Grow(h, size, at, mode); Take(g, |g.free| - 1, size)
  }

  /* ----- my_free ----- */

  /** Index of the first free block that lies above `p`. */
  function Position(free: seq<Block>, p: int): (i: nat)
    ensures i <= |free|
    ensures i < |free| ==> p < free[i].addr
    ensures forall k | 0 <= k < i :: free[k].addr <= p
  {
    if free == [] || p < free[0].addr then 0 else 1 + Position(free[1..], p)
  }

  function Join(b: Block, c: Block): Block { Block(b.addr, b.size + c.size + HEADER) }

  /** Put `b` at index `i`, merging it with a neighbour on either side that it touches. */
  function Insert(free: seq<Block>, i: nat, b: Block): (r: seq<Block>)
    requires i <= |free|
    ensures r != []
  {
    var upper := i < |free| && b.End() == free[i].addr;
    var c := if upper then Join(b, free[i]) else b;
    var rest := if upper then free[i + 1..] else free[i..];
    if 0 < i && free[i - 1].End() == b.addr
    then free[..i - 1] + [Join(free[i - 1], c)] + rest
    else free[..i] + [c] + rest
  }

  /** Bytes given back when the last free block of size `size` ends at the break. */
  function GiveBack(size: int, mode: Mode): int {
    STEP * ((if mode.Repaired? then size - LINKS else size) / STEP)
  }

  function Shrink(h: Heap, mode: Mode): Heap
    requires h.free != []
  {
    var last := h.free[|h.free| - 1];
    if last.End() != h.brk then h
    else
      var n := GiveBack(last.size, mode);
      var kept := if mode.Repaired? then Block(last.addr, last.size - n) else last;
      h.(free := h.free[|h.free| - 1 := kept], owned := h.owned - Range(h.brk - n, h.brk), brk := h.brk - n)
  }

  /** The heap after the block at `p` is back on the list, before memory is given back.
      `brk` is what `sbrk(0)` answers. */
  function Released(h: Heap, p: int, brk: int): (r: Heap)
    requires p in h.live
    ensures r.free != []
  {
    h.(free := Insert(h.free, Position(h.free, p), Block(p, h.live[p])), live := h.live - {p}, brk := brk)
  }

  function Free(h: Heap, p: int, brk: int, mode: Mode): Heap
    requires p in h.live
  {
    Shrink(Released(h, p, brk), mode)
  }

  /* ----- when a call keeps the invariant: conditions that can be read off before it ----- */

  /** Exactly when `my_malloc` leaves the heap well-formed. */
  predicate MallocSafe(h: Heap, request: int, sbrk: Sbrk, mode: Mode) {
    mode.Repaired? ||
    var i := FirstFit(h.free, request);
    if i < |h.free| then
      LINKS <= request || h.free[i].size < request + NODE
    else if sbrk.NoMemory? then
      true
    else if h.free != [] && h.free[|h.free| - 1].addr + HEADER * NODE == sbrk.addr then
      LINKS <= request && h.free[|h.free| - 1].End() == sbrk.addr
    else
      LINKS <= request && request % STEP <= STEP - HEADER
  }

  /** Exactly when `my_free` leaves the heap well-formed: it does not give memory back. */
  predicate FreeSafe(h: Heap, p: int, brk: int, mode: Mode)
    requires p in h.live
  {
    mode.Repaired? ||
    var free := Released(h, p, brk).free;
    var last := free[|free| - 1];
    last.End() == brk ==> last.size < STEP
  }
}
