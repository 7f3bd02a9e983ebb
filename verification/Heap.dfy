/**
 The kernel heap: up to 512 chunks of pages taken from the page allocator, each
 handed out from its front by bumping a pointer.

 The blocks given to callers are recorded in a ghost field, so that what holds
 between any two of them is part of the invariant.
 */
module KernelHeap {
  import opened Machine
  import opened PhysMem

  const MIB: nat := 1048576
  const INITIAL_HEAP_BYTES: nat := 32 * MIB
  const FALLBACK_INITIAL_HEAP_BYTES: nat := 2 * MIB
  const RESERVED_VIRTUAL_HEAP_BYTES: nat := 1024 * MIB
  const FALLBACK_MAX_HEAP_BYTES: nat := 32 * MIB
  const GROW_STEP_SMALL: nat := 2 * MIB
  const GROW_STEP_LARGE: nat := 4 * MIB
  const MAX_HEAP_CHUNKS: nat := 512

  datatype HeapChunk = HeapChunk(base: nat, current: nat, end: nat) {
    predicate IsEmpty() { base == 0 && current == 0 && end == 0 }
  }

  /** A request: alignments are powers of two, given by their exponent. */
  datatype Layout = Layout(size: nat, alignLog: nat)

  /** A block handed out, and the chunk it was cut from. */
  datatype Block = Block(start: nat, size: nat, alignLog: nat, chunk: nat)

  // ---------------------------------------------------------------- alignment

  /** `v & !(2^k - 1)`: the low `k` bits cleared. */
  function ClearLow(v: nat, k: nat): nat
    decreases k
  {
    if k == 0 then v else 2 * ClearLow(v / 2, k - 1)
  }

  function AlignUp(v: nat, k: nat): nat { ClearLow(v + Pow2(k) - 1, k) }

  function Shift(v: nat, k: nat): nat
    decreases k
  {
    if k == 0 then v else Shift(v / 2, k - 1)
  }

  /** Clearing low bits rounds down to a multiple. */
  lemma {:induction false} ClearLowRounds(v: nat, k: nat)
    ensures ClearLow(v, k) == Shift(v, k) * Pow2(k)
    ensures ClearLow(v, k) <= v < ClearLow(v, k) + Pow2(k)
    decreases k
  {
    if k > 0 {
      ClearLowRounds(v / 2, k - 1);
      Doubled(Shift(v / 2, k - 1), Pow2(k - 1));
    }
  }

  lemma Doubled(q: nat, p: nat)
    ensures 2 * (q * p) == q * (2 * p)
  {
  }

  lemma MultipleOf(q: nat, p: nat)
    requires p >= 1
    ensures (q * p) % p == 0
  {
    var d := (q * p) / p - q;
    assert q * p == p * ((q * p) / p) + (q * p) % p;
    assert p * d == -((q * p) % p);
    assert d >= 0 || p * d + p <= 0;
    assert d <= 0 || p * d >= p;
  }

  lemma ProductGrows(x: nat, y: nat, p: nat)
    ensures x <= y ==> x * p <= y * p
  {
    if x <= y {
      var d := y - x;
      assert y * p == x * p + d * p;
    }
  }

  lemma MultiplesStep(p: nat, x: nat, y: nat)
    requires p >= 1 && x * p < y * p
    ensures x * p + p <= y * p
  {
    ProductGrows(y, x, p);
    ProductGrows(x + 1, y, p);
    assert (x + 1) * p == x * p + p;
  }

  lemma MultipleIs(m: nat, p: nat)
    requires p >= 1 && m % p == 0
    ensures m == (m / p) * p
  {
  }

  /** `align_up` gives the least multiple of the alignment that is not below the value. */
  lemma AlignUpIsLeast(v: nat, k: nat)
    ensures v <= AlignUp(v, k) < v + Pow2(k)
    ensures AlignUp(v, k) % Pow2(k) == 0
    ensures forall m: nat :: m % Pow2(k) == 0 && v <= m ==> AlignUp(v, k) <= m
  {
    var p := Pow2(k);
    var n := v + p - 1;
    ClearLowRounds(n, k);
    MultipleOf(Shift(n, k), p);
    forall m: nat | m % p == 0 && v <= m ensures AlignUp(v, k) <= m {
      MultipleIs(m, p);
      if m < AlignUp(v, k) { MultiplesStep(p, m / p, Shift(n, k)); }
    }
  }

  // ---------------------------------------------------------------- chunks and blocks

  function PageNo(a: nat): nat { a / PAGE_SIZE }

  predicate ChunkOk(c: HeapChunk) {
    && 0 < c.base <= c.current <= c.end <= MAX_PAGES * PAGE_SIZE
    && c.base < c.end <= c.base + GROW_STEP_LARGE && c.base % PAGE_SIZE == 0 && c.end % PAGE_SIZE == 0
  }

  /** No byte of the chunk lies on a page the allocator has free. */
  ghost predicate Held(c: HeapChunk, free: set<nat>) {
    forall a: nat {:trigger PageNo(a)} | c.base <= a < c.end :: PageNo(a) !in free
  }

  predicate Apart(from: nat, to: nat, from': nat, to': nat) { to <= from' || to' <= from }

  predicate ChunksApart(cs: seq<HeapChunk>) {
    forall i, j :: 0 <= i < j < |cs| ==> Apart(cs[i].base, cs[i].end, cs[j].base, cs[j].end)
  }

  ghost predicate ChunksOk(cs: seq<HeapChunk>, free: set<nat>) {
    && (forall i :: 0 <= i < |cs| ==> ChunkOk(cs[i]) && Held(cs[i], free))
    && ChunksApart(cs)
  }

  /** A block is aligned, non-null and inside the handed-out part of one chunk. */
  predicate BlockOk(b: Block, cs: seq<HeapChunk>) {
    && b.chunk < |cs| && b.size > 0
    && 0 < cs[b.chunk].base <= b.start && b.start + b.size <= cs[b.chunk].current
    && b.start % Pow2(b.alignLog) == 0
  }

  predicate BlocksApart(blocks: seq<Block>) {
    forall i, j :: 0 <= i < j < |blocks| ==>
      Apart(blocks[i].start, blocks[i].start + blocks[i].size, blocks[j].start, blocks[j].start + blocks[j].size)
  }

  predicate BlocksOk(blocks: seq<Block>, cs: seq<HeapChunk>) {
    (forall i :: 0 <= i < |blocks| ==> BlockOk(blocks[i], cs)) && BlocksApart(blocks)
  }

  /** Every block's bytes are on pages that are not free. */
  lemma BlocksAreHeld(cs: seq<HeapChunk>, blocks: seq<Block>, free: set<nat>, i: nat, a: nat)
    requires ChunksOk(cs, free) && BlocksOk(blocks, cs) && i < |blocks|
    requires blocks[i].start <= a < blocks[i].start + blocks[i].size
    ensures PageNo(a) !in free && a > 0
  {
    assert BlockOk(blocks[i], cs);
    assert Held(cs[blocks[i].chunk], free) && ChunkOk(cs[blocks[i].chunk]);
  }

  // ---------------------------------------------------------------- adding a chunk

  function PageRun(first: nat, pages: nat): HeapChunk { HeapChunk(first * PAGE_SIZE, first * PAGE_SIZE, (first + pages) * PAGE_SIZE) }

  lemma PagesOfRun(first: nat, pages: nat, a: nat)
    requires first * PAGE_SIZE <= a < (first + pages) * PAGE_SIZE
    ensures PageNo(a) in Run(first, pages)
  {
    assert Between(PageNo(a), first, first + pages);
  }

  /** A run that was free has no byte in common with a chunk that was held. */
  lemma FreshRunApart(c: HeapChunk, free: set<nat>, first: nat, pages: nat)
    requires ChunkOk(c) && Held(c, free) && Run(first, pages) <= free && pages > 0
    ensures Apart(c.base, c.end, first * PAGE_SIZE, (first + pages) * PAGE_SIZE)
  {
    var a := Max(c.base, first * PAGE_SIZE);
    if c.base <= a < c.end && a < (first + pages) * PAGE_SIZE { PagesOfRun(first, pages, a); }
  }

  lemma AddChunkKeepsChunks(cs: seq<HeapChunk>, free: set<nat>, first: nat, pages: nat)
    requires ChunksOk(cs, free) && Run(first, pages) <= free
    requires FIRST_ALLOCATABLE <= first && pages > 0 && first + pages <= MAX_PAGES && pages * PAGE_SIZE <= GROW_STEP_LARGE
    ensures ChunksOk(cs + [PageRun(first, pages)], free - Run(first, pages))
  {
    var c := PageRun(first, pages);
    var left := free - Run(first, pages);
    hide Span;
    forall i | 0 <= i < |cs| ensures ChunkOk(cs[i]) && Held(cs[i], left) && Apart(cs[i].base, cs[i].end, c.base, c.end) {
      FreshRunApart(cs[i], free, first, pages);
    }
    forall a: nat | c.base <= a < c.end ensures PageNo(a) !in left {
      PagesOfRun(first, pages, a);
    }
    assert Held(c, left) && ChunkOk(c);
  }

  lemma AddChunkKeepsBlocks(blocks: seq<Block>, cs: seq<HeapChunk>, c: HeapChunk)
    requires BlocksOk(blocks, cs)
    ensures BlocksOk(blocks, cs + [c])
  {
    forall i | 0 <= i < |blocks| ensures BlockOk(blocks[i], cs + [c]) {
      assert BlockOk(blocks[i], cs);
    }
  }

  // ---------------------------------------------------------------- cutting a block

  /** The place a request gets at the front of a chunk. */
  function Start(c: HeapChunk, l: Layout): nat { AlignUp(c.current, l.alignLog) }

  predicate FitsIn(c: HeapChunk, l: Layout) { Start(c, l) + l.size <= c.end }

  function Bumped(c: HeapChunk, l: Layout): HeapChunk { c.(current := Start(c, l) + l.size) }

  lemma BumpKeepsChunks(cs: seq<HeapChunk>, free: set<nat>, i: nat, l: Layout)
    requires ChunksOk(cs, free) && i < |cs| && FitsIn(cs[i], l)
    ensures ChunksOk(cs[i := Bumped(cs[i], l)], free)
  {
    AlignUpIsLeast(cs[i].current, l.alignLog);
    hide AlignUp, Pow2;
    var after := cs[i := Bumped(cs[i], l)];
    forall j | 0 <= j < |after| ensures ChunkOk(after[j]) && Held(after[j], free) {
      assert ChunkOk(cs[j]) && Held(cs[j], free);
    }
  }

  lemma BumpKeepsBlocks(cs: seq<HeapChunk>, free: set<nat>, blocks: seq<Block>, i: nat, l: Layout)
    requires ChunksOk(cs, free) && BlocksOk(blocks, cs) && i < |cs| && FitsIn(cs[i], l) && l.size > 0
    ensures BlocksOk(blocks + [Block(Start(cs[i], l), l.size, l.alignLog, i)], cs[i := Bumped(cs[i], l)])
  {
    AlignUpIsLeast(cs[i].current, l.alignLog);
    hide AlignUp, Pow2, Held;
    var after := cs[i := Bumped(cs[i], l)];
    var b := Block(Start(cs[i], l), l.size, l.alignLog, i);
    assert ChunkOk(cs[i]);
    forall j | 0 <= j < |blocks|
      ensures BlockOk(blocks[j], after)
      ensures Apart(blocks[j].start, blocks[j].start + blocks[j].size, b.start, b.start + b.size)
    {
      assert BlockOk(blocks[j], cs);
      var k := blocks[j].chunk;
      assert ChunkOk(cs[k]);
      if k != i {
        assert Apart(cs[Min(i, k)].base, cs[Min(i, k)].end, cs[Max(i, k)].base, cs[Max(i, k)].end);
      }
    }
    assert BlockOk(b, after);
  }

  // ---------------------------------------------------------------- sums

  function Committed(cs: seq<HeapChunk>): int {
    if cs == [] then 0 else Committed(cs[..|cs| - 1]) + (cs[|cs| - 1].end - cs[|cs| - 1].base)
  }

  function Used(cs: seq<HeapChunk>): int {
    if cs == [] then 0 else Used(cs[..|cs| - 1]) + (cs[|cs| - 1].current - cs[|cs| - 1].base)
  }

  lemma {:induction false} UsedWithinCommitted(cs: seq<HeapChunk>)
    requires forall i :: 0 <= i < |cs| ==> ChunkOk(cs[i])
    ensures 0 <= Used(cs) <= Committed(cs) && Committed(cs) % PAGE_SIZE == 0
  {
    if cs != [] {
      assert ChunkOk(cs[|cs| - 1]);
      UsedWithinCommitted(cs[..|cs| - 1]);
    }
  }

  lemma {:induction false} BumpSums(cs: seq<HeapChunk>, i: nat, c: HeapChunk)
    requires i < |cs| && c.base == cs[i].base && c.end == cs[i].end
    ensures Committed(cs[i := c]) == Committed(cs)
    ensures Used(cs[i := c]) == Used(cs) + c.current - cs[i].current
  {
    var n := |cs| - 1;
    if i == n {
      assert cs[i := c][..n] == cs[..n];
    } else {
      assert cs[i := c][..n] == cs[..n][i := c];
      BumpSums(cs[..n], i, c);
    }
  }

  // ---------------------------------------------------------------- the allocator

  /** What the chunks, the blocks, the free pages and the byte counters keep among themselves. */
  ghost predicate HeapOk(cs: seq<HeapChunk>, blocks: seq<Block>, free: set<nat>, committed: nat, max: nat) {
    && ChunksOk(cs, free) && BlocksOk(blocks, cs)
    && committed == Committed(cs) <= max <= RESERVED_VIRTUAL_HEAP_BYTES && max % PAGE_SIZE == 0
  }

  lemma GrowKeepsHeap(cs: seq<HeapChunk>, blocks: seq<Block>, free: set<nat>, committed: nat, max: nat, first: nat, pages: nat)
    requires HeapOk(cs, blocks, free, committed, max) && Run(first, pages) <= free
    requires FIRST_ALLOCATABLE <= first && pages > 0 && first + pages <= MAX_PAGES && pages * PAGE_SIZE <= GROW_STEP_LARGE
    requires committed + pages * PAGE_SIZE <= max
    ensures HeapOk(cs + [PageRun(first, pages)], blocks, free - Run(first, pages), committed + pages * PAGE_SIZE, max)
  {
    hide ChunksOk, BlocksOk, Run;
    AddChunkKeepsChunks(cs, free, first, pages);
    AddChunkKeepsBlocks(blocks, cs, PageRun(first, pages));
    assert (cs + [PageRun(first, pages)])[..|cs|] == cs;
  }

  lemma CutKeepsHeap(cs: seq<HeapChunk>, blocks: seq<Block>, free: set<nat>, committed: nat, max: nat, i: nat, l: Layout)
    requires HeapOk(cs, blocks, free, committed, max) && i < |cs| && FitsIn(cs[i], l) && l.size > 0
    ensures HeapOk(cs[i := Bumped(cs[i], l)], blocks + [Block(Start(cs[i], l), l.size, l.alignLog, i)], free, committed, max)
  {
    hide ChunksOk, BlocksOk, AlignUp;
    BumpKeepsChunks(cs, free, i, l);
    BumpKeepsBlocks(cs, free, blocks, i, l);
    BumpSums(cs, i, Bumped(cs[i], l));
  }

  /** Used bytes never exceed committed bytes, which never exceed the maximum. */
  lemma HeapBounds(cs: seq<HeapChunk>, blocks: seq<Block>, free: set<nat>, committed: nat, max: nat)
    requires HeapOk(cs, blocks, free, committed, max)
    ensures 0 <= Used(cs) <= committed <= max && committed % PAGE_SIZE == 0
  {
    UsedWithinCommitted(cs);
  }

  lemma HeapLimits(cs: seq<HeapChunk>, blocks: seq<Block>, free: set<nat>, committed: nat, max: nat)
    requires HeapOk(cs, blocks, free, committed, max)
    ensures max <= RESERVED_VIRTUAL_HEAP_BYTES
  {
  }

  lemma OnePageOfRun(free: set<nat>, first: nat, pages: nat, bound: nat)
    requires Run(first, pages) <= free && pages > 0 && FIRST_ALLOCATABLE <= first && first + pages <= bound
    ensures !NoRun(free, 1, bound)
  {
    SpanMembers(first, first + pages);
    SpanMembers(first, first + 1);
    hide Span;
    assert Run(first, 1) <= free;
  }

  ghost predicate NoRun(free: set<nat>, count: nat, bound: nat) {
    forall first: nat | FIRST_ALLOCATABLE <= first && first + count <= bound :: !(Run(first, count) <= free)
  }

  lemma NoRunMeans(pmm: Pmm, count: nat, bound: nat)
    ensures pmm.NoFreeRun(count, bound) <==> NoRun(pmm.Free(), count, bound)
  {
    hide Run;
    if pmm.NoFreeRun(count, bound) {
      forall first: nat | FIRST_ALLOCATABLE <= first && first + count <= bound ensures !(Run(first, count) <= pmm.Free()) {
        assert !pmm.RunFree(first, count);
      }
    }
  }

  /** Where no run of some length is free, no longer one is. */
  lemma LongerRuns(free: set<nat>, count: nat, more: nat, bound: nat)
    requires NoRun(free, count, bound) && count <= more
    ensures NoRun(free, more, bound)
  {
    forall first: nat | FIRST_ALLOCATABLE <= first && first + more <= bound ensures !(Run(first, more) <= free) {
      assert !(Run(first, count) <= free);
      forall p | p in Run(first, count) ensures p in Run(first, more) { assert Between(p, first, first + more); }
    }
  }

  function BytesToPagesCeil(bytes: nat): nat { Max(1, SatAdd(bytes, PAGE_SIZE - 1) / PAGE_SIZE) }

  /** One growth request: at least a page, and within what the maximum still allows. */
  lemma RequestFitsBudget(cs: seq<HeapChunk>, blocks: seq<Block>, free: set<nat>, committed: nat, max: nat, request: nat)
    requires HeapOk(cs, blocks, free, committed, max) && committed < max && request <= max - committed && request <= GROW_STEP_LARGE
    ensures var pages := BytesToPagesCeil(request);
            pages > 0 && pages * PAGE_SIZE <= max - committed && pages * PAGE_SIZE <= GROW_STEP_LARGE
  {
    HeapBounds(cs, blocks, free, committed, max);
    var budget := max - committed;
    assert budget == budget / PAGE_SIZE * PAGE_SIZE;
  }

  lemma RunIsChunk(base: nat, pages: nat, room: nat)
    requires base == base / PAGE_SIZE * PAGE_SIZE && base / PAGE_SIZE + pages <= MAX_PAGES && pages * PAGE_SIZE <= room
    ensures HeapChunk(base, base, SatAdd(base, Min(pages * PAGE_SIZE, room))) == PageRun(base / PAGE_SIZE, pages)
  {
  }

  /** Chunk tried at a step of the circular search. */
  function Circular(active: nat, step: nat, count: nat): (i: nat)
    ensures count > 0 ==> i < count
  {
    if count == 0 then 0 else (active + step) % count
  }

  lemma Visits(active: nat, target: nat, count: nat) returns (step: nat)
    requires active < count && target < count
    ensures step < count && Circular(active, step, count) == target
  {
    step := if active <= target then target - active else count - active + target;
    if active <= target { SmallModulus(target, count); } else { WrapModulus(target, count); }
  }

  lemma AllVisited(cs: seq<HeapChunk>, active: nat, l: Layout)
    requires active < |cs| && forall j :: 0 <= j < |cs| ==> !FitsIn(cs[Circular(active, j, |cs|)], l)
    ensures forall i :: 0 <= i < |cs| ==> !FitsIn(cs[i], l)
  {
    hide Circular;
    forall i | 0 <= i < |cs| ensures !FitsIn(cs[i], l) {
      var step := Visits(active, i, |cs|);
    }
  }

  /** Chunks in use are never empty, and the saturating end test is the plain one. */
  lemma ChunkFacts(cs: seq<HeapChunk>, blocks: seq<Block>, free: set<nat>, committed: nat, max: nat, i: nat, l: Layout)
    requires HeapOk(cs, blocks, free, committed, max) && i < |cs|
    ensures !cs[i].IsEmpty()
    ensures SatAdd(Start(cs[i], l), l.size) <= cs[i].end <==> FitsIn(cs[i], l)
    ensures FitsIn(cs[i], l) ==> SatAdd(Start(cs[i], l), l.size) == Start(cs[i], l) + l.size
  {
    hide AlignUp;
    assert ChunkOk(cs[i]);
  }

  /**
   Every chunk comes from one growth step of at most 4 MiB and chunks are never joined, so a larger request fits
   in no chunk the heap will ever have.
   */
  lemma LargeFitsNowhere(cs: seq<HeapChunk>, blocks: seq<Block>, free: set<nat>, committed: nat, max: nat, l: Layout)
    requires HeapOk(cs, blocks, free, committed, max)
    ensures l.size > GROW_STEP_LARGE ==> forall i :: 0 <= i < |cs| ==> !FitsIn(cs[i], l)
  {
    forall i | 0 <= i < |cs| && l.size > GROW_STEP_LARGE ensures !FitsIn(cs[i], l) {
      assert ChunkOk(cs[i]);
      AlignUpIsLeast(cs[i].current, l.alignLog);
    }
  }

  lemma {:induction false} Pow2Splits(k: nat, n: nat)
    requires k <= n
    ensures Pow2(n) == Pow2(n - k) * Pow2(k)
  {
    if k > 0 {
      Pow2Splits(k - 1, n - 1);
      Doubled(Pow2(n - k), Pow2(k - 1));
    }
  }

  lemma PageIsAligned(first: nat, k: nat)
    requires k <= 12
    ensures AlignUp(first * PAGE_SIZE, k) == first * PAGE_SIZE
  {
    Pow2Splits(k, 12);
    var q, p := Pow2(12 - k), Pow2(k);
    assert Pow2(12) == PAGE_SIZE;
    assert first * (q * p) == (first * q) * p;
    MultipleOf(first * q, p);
    AlignUpIsLeast(first * PAGE_SIZE, k);
  }

  predicate Unused(c: HeapChunk) { c.current == c.base && c.base % PAGE_SIZE == 0 }

  /** An unused chunk serves a request aligned to at most a page exactly up to its own size. */
  lemma UnusedServesExactlyWhen(c: HeapChunk, l: Layout)
    requires Unused(c) && l.alignLog <= 12
    ensures FitsIn(c, l) <==> c.base + l.size <= c.end
  {
    PageIsAligned(c.base / PAGE_SIZE, l.alignLog);
    hide AlignUp;
  }

  /** An unused chunk whose pages were all free in that pool, below the page limit. */
  ghost predicate FromPool(c: HeapChunk, free: set<nat>, limit: nat) {
    && Unused(c) && c.base < c.end && c.end % PAGE_SIZE == 0
    && FIRST_ALLOCATABLE <= c.base / PAGE_SIZE && c.end / PAGE_SIZE <= limit
    && Run(c.base / PAGE_SIZE, (c.end - c.base) / PAGE_SIZE) <= free
  }

  lemma RunFromPool(free: set<nat>, later: set<nat>, first: nat, pages: nat, limit: nat)
    requires Run(first, pages) <= later <= free && FIRST_ALLOCATABLE <= first && pages > 0 && first + pages <= limit
    ensures FromPool(PageRun(first, pages), free, limit)
  {
  }

  lemma WiderPool(c: HeapChunk, free: set<nat>, wider: set<nat>, limit: nat)
    requires FromPool(c, free, limit) && free <= wider
    ensures FromPool(c, wider, limit)
  {
    hide Run;
  }

  lemma SomePage(free: set<nat>, count: nat, bound: nat)
    requires count >= 1
    ensures NoRun(free, 1, bound) ==> NoRun(free, count, bound)
  {
    if NoRun(free, 1, bound) { LongerRuns(free, 1, count, bound); }
  }

  /** A request that fits in a chunk taken from the pool had a free run of its own size there. */
  lemma ServedFromRun(c: HeapChunk, free: set<nat>, limit: nat, l: Layout)
    requires FromPool(c, free, limit) && FitsIn(c, l) && l.size > 0
    ensures !NoRun(free, PagesFor(l.size), limit)
  {
    AlignUpIsLeast(c.current, l.alignLog);
    hide AlignUp;
    var first, pages, need := c.base / PAGE_SIZE, (c.end - c.base) / PAGE_SIZE, PagesFor(l.size);
    assert need <= pages;
    SpanMembers(first, first + need);
    SpanMembers(first, first + pages);
    hide Span;
    assert Run(first, need) <= free;
  }

  function SizeOf(c: HeapChunk): int { c.end - c.base }

  lemma RunSize(first: nat, pages: nat)
    ensures Unused(PageRun(first, pages)) && SizeOf(PageRun(first, pages)) == pages * PAGE_SIZE
  {
  }

  lemma WholeRequest(step: nat)
    requires 0 < step <= GROW_STEP_LARGE && step % PAGE_SIZE == 0
    ensures BytesToPagesCeil(step) == step / PAGE_SIZE && step / PAGE_SIZE * PAGE_SIZE == step
  {
  }

  lemma FirstAttempt(n: nat)
    ensures Halved(n, 0) == n
  {
  }

  /** Pages that hold this many bytes. */
  function PagesFor(size: nat): nat { (size + PAGE_SIZE - 1) / PAGE_SIZE }

  /** The growth step `alloc` chooses. */
  function StepFor(size: nat): nat { if size > GROW_STEP_SMALL then GROW_STEP_LARGE else GROW_STEP_SMALL }

  /** Half of half of ..., as the search for pages tries it after `j` failures. */
  function Halved(n: nat, j: nat): nat { if j == 0 then n else Halved(n, j - 1) / 2 }

  datatype Pointer = Null | Dangling | At(address: nat)

  class Heap {
    const pmm: Pmm
    const identityMaxPhys: U64    // 0 when the identity mode is off
    const chunks: array<HeapChunk>
    var chunkCount: nat
    var activeChunk: nat
    var committedBytes: nat
    var maxBytes: nat
    var targetBytes: nat
    var initialized: bool
    ghost var blocks: seq<Block>

    ghost function Chunks(): seq<HeapChunk>
      reads this, chunks
      requires chunkCount <= chunks.Length
    {
      chunks[..chunkCount]
    }

    ghost predicate Valid()
      reads this, chunks, pmm, pmm.bits, pmm.bits.words
    {
      && pmm.Valid()
      && chunks.Length == MAX_HEAP_CHUNKS
      && chunkCount <= MAX_HEAP_CHUNKS
      && (activeChunk < chunkCount || activeChunk == 0)
      && targetBytes == maxBytes
      && HeapOk(Chunks(), blocks, pmm.Free(), committedBytes, maxBytes)
    }

    /** Pages the heap may take lie below this one. */
    function PageLimit(): nat
      reads pmm
    {
      PageBound(if identityMaxPhys == 0 then U64_MAX else identityMaxPhys, pmm.trackedPages)
    }

    /** The page allocator cannot give the heap even one page. */
    ghost predicate NoPage()
      reads pmm, pmm.bits
    {
      !pmm.initialized || NoRun(pmm.Free(), 1, PageLimit())
    }

    constructor (pmm: Pmm, identityMaxPhys: U64)
      requires pmm.Valid()
      ensures Valid() && !initialized && blocks == [] && fresh(chunks)
      ensures this.pmm == pmm && this.identityMaxPhys == identityMaxPhys
    {
      this.pmm, this.identityMaxPhys := pmm, identityMaxPhys;
      chunks := new HeapChunk[MAX_HEAP_CHUNKS](_ => HeapChunk(0, 0, 0));
      chunkCount, activeChunk, committedBytes, maxBytes, targetBytes := 0, 0, 0, 0, 0;
      initialized, blocks := false, [];
    }

    /**
     `alloc_best_effort_pages`: the request is halved until a run is found; no larger attempt had one, and it
     fails exactly when not even one page is to be had.
     */
    method TakePages(maxPages: nat) returns (r: Option<(nat, nat)>, ghost halvings: nat)
      requires pmm.Valid()
      modifies pmm`freePages, pmm`nextHint, pmm.bits, pmm.bits.words
      ensures pmm.Valid()
      ensures r.None? <==> maxPages == 0 || old(NoPage())
      ensures r.None? ==> pmm.Free() == old(pmm.Free()) && pmm.freePages == old(pmm.freePages)
      ensures r.Some? ==> (
        var (base, pages) := r.value;
        var first := base / PAGE_SIZE;
        && base == first * PAGE_SIZE && 0 < pages <= maxPages
        && FIRST_ALLOCATABLE <= first && first + pages <= PageLimit()
        && Run(first, pages) <= old(pmm.Free()) && pmm.Free() == old(pmm.Free()) - Run(first, pages)
        && pmm.freePages == old(pmm.freePages) - pages && pmm.initialized
        && pages == Halved(maxPages, halvings))
      ensures forall j :: 0 <= j < halvings ==> !pmm.initialized || NoRun(old(pmm.Free()), Halved(maxPages, j), PageLimit())
    {
      hide Pmm.Valid, Pmm.NoFreeRun, Pmm.FirstFit, Run, NoRun;
      ghost var free := pmm.Free();
      var pages: nat := maxPages;
      halvings := 0;
      while pages > 0
        invariant pages <= maxPages && pmm.Valid() && pages == Halved(maxPages, halvings)
        invariant pmm.Free() == free && pmm.freePages == old(pmm.freePages)
        invariant forall j :: 0 <= j < halvings ==> !pmm.initialized || NoRun(free, Halved(maxPages, j), PageLimit())
        invariant pages < maxPages ==> !pmm.initialized || NoRun(free, 2 * pages + 1, PageLimit())
      {
        NoRunMeans(pmm, pages, PageLimit());
        var base := pmm.AllocPagesBelow(pages, if identityMaxPhys == 0 then U64_MAX else identityMaxPhys);
        if base.Some? {
          OnePageOfRun(free, base.value / PAGE_SIZE, pages, PageLimit());
          return Some((base.value, pages)), halvings;
        }
        if pmm.initialized { LongerRuns(free, pages, 2 * (pages / 2) + 1, PageLimit()); }
        pages := pages / 2;
        halvings := halvings + 1;
      }
      return None, halvings;
    }

    /** `add_chunk`: the new chunk is cut to what the maximum still allows. */
    method AddChunk(base: nat, bytes: nat) returns (ok: bool)
      requires chunks.Length == MAX_HEAP_CHUNKS && chunkCount <= MAX_HEAP_CHUNKS
      modifies chunks, `chunkCount, `committedBytes
      ensures chunkCount <= MAX_HEAP_CHUNKS
      ensures ok <==> old(chunkCount) < MAX_HEAP_CHUNKS && bytes > 0 && old(committedBytes) < maxBytes
      ensures !ok ==> Chunks() == old(Chunks()) && committedBytes == old(committedBytes) && chunkCount == old(chunkCount)
      ensures ok ==> (
        var taken := Min(bytes, maxBytes - old(committedBytes));
        && chunkCount == old(chunkCount) + 1
        && Chunks() == old(Chunks()) + [HeapChunk(base, base, SatAdd(base, taken))]
        && committedBytes == SatAdd(old(committedBytes), taken))
    {
      if chunkCount >= MAX_HEAP_CHUNKS || bytes == 0 { return false; }
      if committedBytes >= maxBytes { return false; }
      var available := SatSub(maxBytes, committedBytes);
      var taken := Min(bytes, available);
      if taken == 0 { return false; }
      chunks[chunkCount] := HeapChunk(base, base, SatAdd(base, taken));
      chunkCount := chunkCount + 1;
      committedBytes := SatAdd(committedBytes, taken);
      return true;
    }

    /** A whole growth step can be taken: a chunk slot, room up to the wanted size, and a free run for it. */
    ghost predicate WholeStep(desiredBytes: nat, step: nat)
      reads this, pmm, pmm.bits
    {
      && chunkCount < MAX_HEAP_CHUNKS && committedBytes + step <= Min(desiredBytes, maxBytes)
      && pmm.initialized && !NoRun(pmm.Free(), step / PAGE_SIZE, PageLimit())
    }

    /**
     `grow_heap_locked`: stops only at the wanted size, at the last chunk slot, or when there is no page
     left to take. Every page taken from the page allocator becomes committed bytes of an unused chunk; when a
     whole step can be taken, the first new chunk is that step.
     */
    method Grow(desiredBytes: nat, step: nat)
      requires Valid() && 0 < step <= GROW_STEP_LARGE && step % PAGE_SIZE == 0
      modifies chunks, `chunkCount, `committedBytes, pmm`freePages, pmm`nextHint, pmm.bits, pmm.bits.words
      ensures Valid()
      ensures old(Chunks()) <= Chunks() && committedBytes >= old(committedBytes)
      ensures committedBytes >= Min(desiredBytes, maxBytes) || chunkCount == MAX_HEAP_CHUNKS || NoPage()
      ensures committedBytes + pmm.freePages * PAGE_SIZE == old(committedBytes + pmm.freePages * PAGE_SIZE)
      ensures forall i :: old(chunkCount) <= i < chunkCount ==> FromPool(Chunks()[i], old(pmm.Free()), PageLimit())
      ensures old(WholeStep(desiredBytes, step)) ==>
        chunkCount > old(chunkCount) && Unused(Chunks()[old(chunkCount)]) && SizeOf(Chunks()[old(chunkCount)]) == step
    {
      hide HeapOk, Pmm.Valid, NoRun, FromPool, Unused;
      var desired := Min(desiredBytes, maxBytes);
      ghost var n, f0, whole := chunkCount, pmm.Free(), WholeStep(desiredBytes, step);
      while committedBytes < desired && chunkCount < MAX_HEAP_CHUNKS
        invariant Valid() && n <= chunkCount
        invariant old(Chunks()) <= Chunks() && committedBytes >= old(committedBytes)
        invariant committedBytes + pmm.freePages * PAGE_SIZE == old(committedBytes + pmm.freePages * PAGE_SIZE)
        invariant pmm.Free() <= f0
        invariant chunkCount == n ==> pmm.Free() == f0 && committedBytes == old(committedBytes)
        invariant forall i :: n <= i < chunkCount ==> FromPool(Chunks()[i], f0, PageLimit())
        invariant whole && chunkCount > n ==> Unused(Chunks()[n]) && SizeOf(Chunks()[n]) == step
        decreases desired - committedBytes
      {
        ghost var free := pmm.Free();
        var added := GrowOnce(desired, step);
        if !added { break; }
        WiderPool(Chunks()[chunkCount - 1], free, f0, PageLimit());
      }
    }

    /** One turn of that loop. */
    method GrowOnce(desired: nat, step: nat) returns (added: bool)
      requires Valid() && 0 < step <= GROW_STEP_LARGE && step % PAGE_SIZE == 0
      requires committedBytes < desired <= maxBytes && chunkCount < MAX_HEAP_CHUNKS
      modifies chunks, `chunkCount, `committedBytes, pmm`freePages, pmm`nextHint, pmm.bits, pmm.bits.words
      ensures Valid()
      ensures added <==> !old(NoPage())
      ensures !added ==> Chunks() == old(Chunks()) && chunkCount == old(chunkCount) && committedBytes == old(committedBytes)
                         && pmm.Free() == old(pmm.Free()) && pmm.freePages == old(pmm.freePages)
      ensures added ==> (
        && chunkCount == old(chunkCount) + 1 && old(Chunks()) == Chunks()[..old(chunkCount)]
        && var c := Chunks()[old(chunkCount)];
           && FromPool(c, old(pmm.Free()), PageLimit()) && Unused(c) && SizeOf(c) > 0
           && committedBytes == old(committedBytes) + SizeOf(c)
           && pmm.Free() <= old(pmm.Free())
           && committedBytes + pmm.freePages * PAGE_SIZE == old(committedBytes + pmm.freePages * PAGE_SIZE)
           && (old(WholeStep(desired, step)) ==> SizeOf(c) == step))
      ensures old(WholeStep(desired, step)) ==> added
    {
      hide HeapOk, Pmm.Valid, NoRun, Run, BytesToPagesCeil, Pmm.RunFree, PageRun, FromPool, Halved, Unused, SizeOf;
      ghost var cs, free, was := Chunks(), pmm.Free(), committedBytes;
      var bytes := Min(SatSub(desired, committedBytes), step);
      var request := BytesToPagesCeil(bytes);
      RequestFitsBudget(cs, blocks, free, was, maxBytes, bytes);
      HeapLimits(cs, blocks, free, was, maxBytes);
      LimitInRange();
      WholeRequest(step);
      FirstAttempt(request);
      SomePage(free, step / PAGE_SIZE, PageLimit());
      var got, halvings := TakePages(request);
      if got.None? { return false; }
      var (base, pages) := got.value;
      RunIsChunk(base, pages, maxBytes - was);
      GrowKeepsHeap(cs, blocks, free, was, maxBytes, base / PAGE_SIZE, pages);
      RunFromPool(free, free, base / PAGE_SIZE, pages, PageLimit());
      RunSize(base / PAGE_SIZE, pages);
      added := AddChunk(base, pages * PAGE_SIZE);
      assert Chunks() == cs + [PageRun(base / PAGE_SIZE, pages)];
    }

    lemma LimitInRange()
      requires pmm.Valid()
      ensures PageLimit() <= MAX_PAGES
    {
    }

    /**
     `try_alloc_from_chunks`: fails exactly when the request fits in no chunk; otherwise the block is cut
     from the first chunk, in circular order from the active one, that has room.
     */
    method TryAlloc(l: Layout) returns (r: Option<nat>, ghost steps: nat)
      requires Valid() && l.size > 0
      modifies chunks, `activeChunk, `blocks
      ensures Valid()
      ensures r.None? <==> forall i :: 0 <= i < chunkCount ==> !FitsIn(old(Chunks())[i], l)
      ensures r.None? ==> Chunks() == old(Chunks()) && blocks == old(blocks) && activeChunk == old(activeChunk)
      ensures r.Some? ==>
        && activeChunk < chunkCount && activeChunk == Circular(old(activeChunk), steps, chunkCount)
        && FitsIn(old(Chunks())[activeChunk], l)
        && r.value == Start(old(Chunks())[activeChunk], l)
        && Chunks() == old(Chunks())[activeChunk := Bumped(old(Chunks())[activeChunk], l)]
        && blocks == old(blocks) + [Block(r.value, l.size, l.alignLog, activeChunk)]
      ensures r.Some? ==> forall j :: 0 <= j < steps ==> !FitsIn(old(Chunks())[Circular(old(activeChunk), j, chunkCount)], l)
    {
      hide HeapOk, Pmm.Valid, Start, FitsIn, Circular;
      steps := 0;
      if chunkCount == 0 { return None, 0; }
      ghost var cs := Chunks();
      for i := 0 to chunkCount
        invariant Chunks() == cs && blocks == old(blocks) && activeChunk == old(activeChunk) && Valid()
        invariant forall j :: 0 <= j < i ==> !FitsIn(cs[Circular(activeChunk, j, chunkCount)], l)
      {
        var idx := Circular(activeChunk, i, chunkCount);
        var chunk := chunks[idx];
        assert chunk == cs[idx];
        ChunkFacts(cs, blocks, pmm.Free(), committedBytes, maxBytes, idx, l);
        if chunk.IsEmpty() { continue; }
        var start := Start(chunk, l);
        var end := SatAdd(start, l.size);
        if end <= chunk.end {
          CutKeepsHeap(cs, blocks, pmm.Free(), committedBytes, maxBytes, idx, l);
          chunks[idx] := chunk.(current := end);
          activeChunk := idx;
          blocks := blocks + [Block(start, l.size, l.alignLog, idx)];
          assert Chunks() == cs[idx := Bumped(cs[idx], l)];
          return Some(start), i;
        }
      }
      AllVisited(cs, activeChunk, l);
      return None, 0;
    }

    /**
     `alloc`: one attempt, one growth, one more attempt. A null answer to a sized request on a running heap
     means that no chunk has room and that growing stopped for one of its three reasons. While the heap can grow
     by a whole step, a request aligned to at most a page is served exactly when it is at most 4 MiB; and no request
     is served by growing without a free run of its own size.
     */
    method Alloc(l: Layout) returns (r: Pointer)
      requires Valid()
      modifies chunks, `chunkCount, `activeChunk, `committedBytes, `blocks
      modifies pmm`freePages, pmm`nextHint, pmm.bits, pmm.bits.words
      ensures Valid()
      ensures r == Dangling <==> l.size == 0
      ensures r.At? ==> blocks == old(blocks) + [Block(r.address, l.size, l.alignLog, activeChunk)]
      ensures !r.At? ==> blocks == old(blocks)
      ensures !initialized ==> !r.At? && Chunks() == old(Chunks())
      ensures r.Null? && initialized ==>
        && (forall i :: 0 <= i < chunkCount ==> !FitsIn(Chunks()[i], l))
        && (committedBytes >= Min(targetBytes, old(committedBytes) + Max(l.size, GROW_STEP_SMALL)) || chunkCount == MAX_HEAP_CHUNKS || NoPage())
      ensures committedBytes >= old(committedBytes)
      ensures committedBytes + pmm.freePages * PAGE_SIZE == old(committedBytes + pmm.freePages * PAGE_SIZE)
      ensures l.size > GROW_STEP_LARGE ==> r == Null
      ensures initialized && l.size > 0 && old(FitsSomewhere(l)) ==> r.At?
      ensures initialized && l.size > 0 && l.alignLog <= 12 && old(WholeStep(targetBytes, StepFor(l.size))) ==>
        (r.At? <==> l.size <= GROW_STEP_LARGE)
      ensures r.At? && !old(FitsSomewhere(l)) ==> !NoRun(old(pmm.Free()), PagesFor(l.size), PageLimit())
    {
      hide HeapOk, Pmm.Valid, Start, FitsIn, Circular, NoRun, Bumped, PagesFor, StepFor;
      if l.size == 0 { return Dangling; }
      if !initialized { return Null; }
      LargeFitsNowhere(Chunks(), blocks, pmm.Free(), committedBytes, maxBytes, l);
      var first, _ := TryAlloc(l);
      if first.Some? { return At(first.value); }
      var second := GrowAndRetry(l);
      if second.None? { return Null; }
      return At(second.value);
    }

    /** The second half of `alloc`, when no chunk has room. */
    method GrowAndRetry(l: Layout) returns (r: Option<nat>)
      requires Valid() && l.size > 0 && forall i :: 0 <= i < chunkCount ==> !FitsIn(Chunks()[i], l)
      modifies chunks, `chunkCount, `activeChunk, `committedBytes, `blocks
      modifies pmm`freePages, pmm`nextHint, pmm.bits, pmm.bits.words
      ensures Valid()
      ensures r.Some? ==> blocks == old(blocks) + [Block(r.value, l.size, l.alignLog, activeChunk)]
      ensures r.None? ==>
        && blocks == old(blocks)
        && (forall i :: 0 <= i < chunkCount ==> !FitsIn(Chunks()[i], l))
        && (committedBytes >= Min(targetBytes, old(committedBytes) + Max(l.size, GROW_STEP_SMALL)) || chunkCount == MAX_HEAP_CHUNKS || NoPage())
      ensures committedBytes >= old(committedBytes)
      ensures committedBytes + pmm.freePages * PAGE_SIZE == old(committedBytes + pmm.freePages * PAGE_SIZE)
      ensures l.size > GROW_STEP_LARGE ==> r.None?
      ensures l.alignLog <= 12 && l.size <= GROW_STEP_LARGE && old(WholeStep(targetBytes, StepFor(l.size))) ==> r.Some?
      ensures r.Some? ==> !NoRun(old(pmm.Free()), PagesFor(l.size), PageLimit())
    {
      hide HeapOk, Pmm.Valid, Start, FitsIn, Circular, NoRun, Bumped, FromPool, PagesFor, Unused;
      ghost var n := chunkCount;
      HeapLimits(Chunks(), blocks, pmm.Free(), committedBytes, maxBytes);
      if committedBytes < targetBytes {
        var step := StepFor(l.size);
        var extra := Max(l.size, step);
        Grow(Min(targetBytes, SatAdd(committedBytes, extra)), step);
      }
      LargeFitsNowhere(Chunks(), blocks, pmm.Free(), committedBytes, maxBytes, l);
      ghost var cs := Chunks();
      if chunkCount > n && Unused(cs[n]) && l.alignLog <= 12 { UnusedServesExactlyWhen(cs[n], l); }
      ghost var steps;
      r, steps := TryAlloc(l);
      if r.Some? {
        assert activeChunk >= n;
        ServedFromRun(cs[activeChunk], old(pmm.Free()), PageLimit(), l);
      }
    }

    /** Some chunk has room for the request as it is. */
    ghost predicate FitsSomewhere(l: Layout)
      requires chunkCount <= chunks.Length
      reads this, chunks
    {
      exists i :: 0 <= i < chunkCount && FitsIn(Chunks()[i], l)
    }

    /** `compute_used_bytes`: no saturation happens, and the sum stays within the committed bytes. */
    method ComputeUsedBytes() returns (used: nat)
      requires Valid()
      ensures used == Used(Chunks()) <= committedBytes <= maxBytes
    {
      ghost var cs := Chunks();
      HeapBounds(cs, blocks, pmm.Free(), committedBytes, maxBytes);
      HeapLimits(cs, blocks, pmm.Free(), committedBytes, maxBytes);
      hide HeapOk, Pmm.Valid;
      used := 0;
      for i := 0 to chunkCount
        invariant used == Used(cs[..i])
      {
        var c := chunks[i];
        assert c == cs[i] && cs[..i + 1][..i] == cs[..i] && cs[..i + 1][i] == c;
        PrefixWithin(cs, blocks, pmm.Free(), committedBytes, maxBytes, i + 1);
        used := SatAdd(used, SatSub(c.current, c.base));
      }
      assert cs[..chunkCount] == cs;
    }

    /** The resets at the start of `init`, and the new maximum. */
    method Clear()
      requires pmm.Valid() && chunks.Length == MAX_HEAP_CHUNKS
      modifies this, chunks
      ensures Valid() && blocks == [] && Chunks() == [] && committedBytes == 0 && !initialized
      ensures maxBytes == Min(if pmm.initialized then pmm.trackedPages * PAGE_SIZE else 0,
                              if identityMaxPhys != 0 then FALLBACK_MAX_HEAP_BYTES else RESERVED_VIRTUAL_HEAP_BYTES)
    {
      hide HeapOk, Pmm.Valid;
      forall i | 0 <= i < chunks.Length { chunks[i] := HeapChunk(0, 0, 0); }
      chunkCount, activeChunk, committedBytes := 0, 0, 0;
      initialized, blocks := false, [];
      var total, _, _ := pmm.Stats();
      maxBytes := Min(total * PAGE_SIZE, if identityMaxPhys != 0 then FALLBACK_MAX_HEAP_BYTES else RESERVED_VIRTUAL_HEAP_BYTES);
      targetBytes := maxBytes;
      EmptyHeap(pmm.Free(), total, maxBytes);
      assert Chunks() == [];
    }

    /** `init`: the answer is false where the source's assertion fails, which needs a machine without a usable page. */
    method Init() returns (ok: bool)
      requires pmm.Valid() && chunks.Length == MAX_HEAP_CHUNKS
      modifies this, chunks, pmm`freePages, pmm`nextHint, pmm.bits, pmm.bits.words
      ensures Valid() && blocks == [] && ok == initialized
      ensures maxBytes == Min(if pmm.initialized then pmm.trackedPages * PAGE_SIZE else 0,
                              if identityMaxPhys != 0 then FALLBACK_MAX_HEAP_BYTES else RESERVED_VIRTUAL_HEAP_BYTES)
      ensures !ok ==> committedBytes == 0 && (maxBytes == 0 || NoPage())
      ensures committedBytes + pmm.freePages * PAGE_SIZE == old(pmm.freePages * PAGE_SIZE)
    {
      hide HeapOk, Pmm.Valid, NoRun, PageBound;
      Clear();
      var initial := Min(if identityMaxPhys != 0 then FALLBACK_INITIAL_HEAP_BYTES else INITIAL_HEAP_BYTES, maxBytes);
      Grow(initial, GROW_STEP_LARGE);
      NoChunksNothingCommitted(Chunks(), blocks, pmm.Free(), committedBytes, maxBytes);
      initialized := chunkCount > 0;
      return initialized;
    }
  }

  lemma EmptyHeap(free: set<nat>, total: nat, max: nat)
    requires max == Min(total * PAGE_SIZE, RESERVED_VIRTUAL_HEAP_BYTES) || max == Min(total * PAGE_SIZE, FALLBACK_MAX_HEAP_BYTES)
    ensures HeapOk([], [], free, 0, max)
  {
    assert total * PAGE_SIZE % PAGE_SIZE == 0;
  }

  lemma NoChunksNothingCommitted(cs: seq<HeapChunk>, blocks: seq<Block>, free: set<nat>, committed: nat, max: nat)
    requires HeapOk(cs, blocks, free, committed, max)
    ensures cs == [] ==> committed == 0
  {
  }

  lemma PrefixWithin(cs: seq<HeapChunk>, blocks: seq<Block>, free: set<nat>, committed: nat, max: nat, n: nat)
    requires HeapOk(cs, blocks, free, committed, max) && 0 < n <= |cs|
    ensures ChunkOk(cs[n - 1]) && 0 <= Used(cs[..n]) <= committed
  {
    assert ChunkOk(cs[n - 1]);
    UsedWithinCommitted(cs[..n]);
    CommittedGrows(cs, n);
  }

  lemma {:induction false} CommittedGrows(cs: seq<HeapChunk>, n: nat)
    requires n <= |cs| && forall i :: 0 <= i < |cs| ==> ChunkOk(cs[i])
    ensures Committed(cs[..n]) <= Committed(cs)
    decreases |cs|
  {
    if n == |cs| {
      assert cs[..n] == cs;
    } else {
      var m := |cs| - 1;
      assert ChunkOk(cs[m]) && cs[..m][..n] == cs[..n];
      CommittedGrows(cs[..m], n);
    }
  }
}
