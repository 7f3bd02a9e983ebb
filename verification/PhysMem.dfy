/**
 The physical page allocator: one bit per 4 KiB page, a free-page counter, and
 a circular first-fit scan that starts at a hint.

 The simple form of the allocator is the set of free pages, `Free()`. Every
 operation is specified on that set; `Valid()` ties the bits and the counter to it.
 */
module PhysMem {
  import opened Machine

  const MAX_PAGES: nat := 16777216     // 64 GiB of 4 KiB pages
  const BITMAP_WORDS: nat := 262144    // MAX_PAGES / 64
  const FIRST_ALLOCATABLE: nat := 1
  const WORD_BITS: nat := 64

  datatype Region = Region(base: U64, length: U64, usable: bool)

  // ---------------------------------------------------------------- bits of a word

  /** `w & (1 << bit) != 0`: bit 0 is the parity of w, bit k + 1 is bit k of w / 2. */
  predicate TestBit(w: nat, bit: nat)
    decreases bit
  {
    if bit == 0 then w % 2 == 1 else TestBit(w / 2, bit - 1)
  }

  /** `w | (1 << bit)`. */
  function SetBit(w: nat, bit: nat): nat
    decreases bit
  {
    if bit == 0 then w / 2 * 2 + 1 else SetBit(w / 2, bit - 1) * 2 + w % 2
  }

  /** `w & !(1 << bit)`. */
  function ClearBit(w: nat, bit: nat): nat
    decreases bit
  {
    if bit == 0 then w / 2 * 2 else ClearBit(w / 2, bit - 1) * 2 + w % 2
  }

  /** Setting bit `k` of a word sets that bit and no other. */
  lemma {:induction false} SetBitExact(w: nat, k: nat, j: nat)
    ensures TestBit(SetBit(w, k), j) <==> j == k || TestBit(w, j)
    decreases k
  {
    if k > 0 && j > 0 {
      assert SetBit(w, k) / 2 == SetBit(w / 2, k - 1);
      SetBitExact(w / 2, k - 1, j - 1);
    }
  }

  /** Clearing bit `k` of a word clears that bit and no other. */
  lemma {:induction false} ClearBitExact(w: nat, k: nat, j: nat)
    ensures TestBit(ClearBit(w, k), j) <==> j != k && TestBit(w, j)
    decreases k
  {
    if k > 0 && j > 0 {
      assert ClearBit(w, k) / 2 == ClearBit(w / 2, k - 1);
      ClearBitExact(w / 2, k - 1, j - 1);
    }
  }

  function Pow2(n: nat): (p: nat)
    ensures p > 0
  {
    if n == 0 then 1 else 2 * Pow2(n - 1)
  }

  /** Setting or clearing a bit below the word width leaves the word within its width. */
  lemma {:induction false} BitOpsKeepWidth(w: nat, k: nat, n: nat)
    requires k < n && w < Pow2(n)
    ensures SetBit(w, k) < Pow2(n) && ClearBit(w, k) < Pow2(n)
    decreases k
  {
    var half := Pow2(n - 1);
    assert Pow2(n) == 2 * half && w / 2 < half;
    if k > 0 {
      BitOpsKeepWidth(w / 2, k - 1, n - 1);
      var s, c := SetBit(w / 2, k - 1), ClearBit(w / 2, k - 1);
      assert SetBit(w, k) == s * 2 + w % 2 && ClearBit(w, k) == c * 2 + w % 2;
      hide SetBit, ClearBit, Pow2;
    }
  }

  lemma {:induction false} AllOnes(n: nat, k: nat)
    requires k < n
    ensures TestBit(Pow2(n) - 1, k)
    decreases k
  {
    if k > 0 {
      assert (Pow2(n) - 1) / 2 == Pow2(n - 1) - 1;
      AllOnes(n - 1, k - 1);
    }
  }

  lemma EightMoreBits(n: nat)
    ensures Pow2(n + 8) == 256 * Pow2(n)
  {
    assert Pow2(n + 2) == 4 * Pow2(n);
    assert Pow2(n + 4) == 16 * Pow2(n);
    assert Pow2(n + 6) == 64 * Pow2(n);
  }

  lemma WordRange(n: nat)
    requires n == 64
    ensures Pow2(n) == U64_MAX + 1
  {
    EightMoreBits(n - 64); EightMoreBits(n - 56); EightMoreBits(n - 48); EightMoreBits(n - 40);
    EightMoreBits(n - 32); EightMoreBits(n - 24); EightMoreBits(n - 16); EightMoreBits(n - 8);
  }

  // ---------------------------------------------------------------- runs of pages

  predicate Between(p: nat, start: nat, limit: nat) { start <= p < limit }

  /** The pages start, .., limit - 1; none when the bounds are crossed. */
  ghost function Span(start: nat, limit: nat): set<nat> {
    set p: nat | start <= p < limit && Between(p, start, limit)
  }

  lemma SpanMembers(start: nat, limit: nat)
    ensures forall p: nat :: p in Span(start, limit) <==> start <= p < limit
  {
    forall p: nat | start <= p < limit ensures p in Span(start, limit) { assert Between(p, start, limit); }
  }

  lemma SpanEmpty(start: nat, limit: nat)
    ensures limit <= start ==> Span(start, limit) == {}
  {
  }

  lemma SpanStep(start: nat, limit: nat)
    requires start <= limit
    ensures Span(start, limit + 1) == Span(start, limit) + {limit}
  {
  }

  lemma {:induction false} SpanSize(start: nat, limit: nat)
    ensures |Span(start, limit)| == SatSub(limit, start)
    decreases limit
  {
    if start < limit {
      SpanSize(start, limit - 1);
      SpanStep(start, limit - 1);
    } else {
      assert Span(start, limit) == {};
    }
  }

  /** The `count` pages from `first` on. */
  ghost function Run(first: nat, count: nat): set<nat> {
    Span(first, first + count)
  }

  /** One past the highest byte of any region. */
  function Highest(entries: seq<Region>): (h: U64)
    ensures forall e :: e in entries ==> SatAdd(e.base, e.length) <= h
    ensures h == 0 || exists e :: e in entries && SatAdd(e.base, e.length) == h
  {
    if entries == [] then 0
    else
      var last := entries[|entries| - 1];
      var end := SatAdd(last.base, last.length);
      var before := Highest(entries[..|entries| - 1]);
      if end > before then end else before
  }

  function RegionLimit(e: Region): nat { PageFloor(SatAdd(e.base, e.length)) }

  predicate InRegion(e: Region, p: nat) { e.usable && PageCeil(e.base) <= p < RegionLimit(e) }

  /** Page `p` lies wholly inside some usable region. */
  ghost predicate InUsable(entries: seq<Region>, p: nat) {
    exists e :: e in entries && InRegion(e, p)
  }

  lemma UsableStep(entries: seq<Region>, e: Region)
    ensures forall p: nat :: InUsable(entries + [e], p) <==> InUsable(entries, p) || InRegion(e, p)
  {
    forall p: nat
      ensures InUsable(entries + [e], p) <==> InUsable(entries, p) || InRegion(e, p)
    {
      if InUsable(entries, p) {
        var w :| w in entries && InRegion(w, p);
        assert w in entries + [e];
      }
      assert e in entries + [e];
    }
  }

  lemma SubsetSize<T>(a: set<T>, b: set<T>)
    requires a <= b
    ensures |a| <= |b| && |b - a| == |b| - |a|
  {
    assert b == a + (b - a);
  }

  /** The exclusive page bound that a byte bound `maxPhys` is rounded to. */
  function PageBound(maxPhys: U64, trackedPages: nat): nat {
    if maxPhys == U64_MAX then trackedPages
    else Min(trackedPages, SatAdd(maxPhys, PAGE_SIZE - 1) / PAGE_SIZE)
  }

  /** Where the circular scan starts: at the hint when a run can still start there. */
  function ScanStart(hint: nat, bound: nat, count: nat): nat
    requires count <= bound
  {
    if FIRST_ALLOCATABLE <= hint < bound - count + 1 then hint else FIRST_ALLOCATABLE
  }

  /** The start page tried at step `offset` of a scan over `slots` candidates. */
  function Slot(start: nat, offset: nat, slots: nat): nat
    requires slots > 0 && start >= FIRST_ALLOCATABLE
  {
    FIRST_ALLOCATABLE + (start - FIRST_ALLOCATABLE + offset) % slots
  }

  lemma SmallModulus(a: nat, m: nat)
    requires a < m
    ensures a % m == a
  {
  }

  lemma WrapModulus(a: nat, m: nat)
    requires a < m
    ensures (m + a) % m == a
  {
    var q := (m + a) / m;
    assert m + a == m * q + (m + a) % m;
    assert q >= 1 && (q >= 2 ==> m * q >= m + m);
  }

  /** The scan visits every candidate start: for each there is a step that tries it. */
  lemma ScanVisits(start: nat, slots: nat, target: nat) returns (offset: nat)
    requires slots > 0
    requires FIRST_ALLOCATABLE <= start < FIRST_ALLOCATABLE + slots
    requires FIRST_ALLOCATABLE <= target < FIRST_ALLOCATABLE + slots
    ensures offset < slots && Slot(start, offset, slots) == target
  {
    var s, t := start - FIRST_ALLOCATABLE, target - FIRST_ALLOCATABLE;
    offset := if s <= t then t - s else slots - s + t;
    if s <= t { SmallModulus(t, slots); } else { WrapModulus(t, slots); }
  }

  /**
   Pages below the page bound lie wholly below the byte bound exactly when the byte
   bound is page aligned or beyond all tracked memory. The allocator's comment promises
   "stays below" for every bound; for the others the last page straddles it.
   */
  lemma BoundIsRespectedExactlyWhen(maxPhys: U64, trackedPages: nat)
    requires trackedPages <= MAX_PAGES
    ensures PageBound(maxPhys, trackedPages) * PAGE_SIZE <= maxPhys
       <==> maxPhys % PAGE_SIZE == 0 || trackedPages * PAGE_SIZE <= maxPhys
  {
    if maxPhys % PAGE_SIZE != 0 && maxPhys < trackedPages * PAGE_SIZE {
      var q := maxPhys / PAGE_SIZE;
      assert SatAdd(maxPhys, PAGE_SIZE - 1) == q * PAGE_SIZE + maxPhys % PAGE_SIZE + PAGE_SIZE - 1;
      assert SatAdd(maxPhys, PAGE_SIZE - 1) / PAGE_SIZE == q + 1;
    }
  }

  lemma CeilAbove(end: U64, highest: U64)
    requires end <= highest <= U64_MAX + 1 - PAGE_SIZE
    ensures PageFloor(end) <= PageCeil(highest)
  {
  }

  /**
   `init` tracks all usable pages below 64 GiB exactly when rounding the end of the highest region up does not
   wrap around the 64-bit range (or there are none); otherwise it tracks nothing.
   */
  lemma InitTracksExactlyWhen(entries: seq<Region>)
    ensures (forall p: nat | p < MAX_PAGES && InUsable(entries, p) :: p < Min(PageCeil(Highest(entries)), MAX_PAGES))
       <==> Highest(entries) <= U64_MAX + 1 - PAGE_SIZE || forall p: nat | p < MAX_PAGES :: !InUsable(entries, p)
  {
    if Highest(entries) <= U64_MAX + 1 - PAGE_SIZE {
      forall p: nat | p < MAX_PAGES && InUsable(entries, p) ensures p < PageCeil(Highest(entries)) {
        var e :| e in entries && InRegion(e, p);
        CeilAbove(SatAdd(e.base, e.length), Highest(entries));
      }
    } else {
      assert PageCeil(Highest(entries)) == 0;
    }
  }

  /**
   `reserve` covers every tracked page that its byte range touches exactly when rounding
   the end of the range up does not wrap around the 64-bit range (or there is nothing to cover).
   */
  lemma ReserveCoversExactlyWhen(base: U64, length: U64, trackedPages: nat)
    requires trackedPages <= MAX_PAGES
    requires length > 0
    ensures (forall p: nat | p < trackedPages && p * PAGE_SIZE < base + length && base < (p + 1) * PAGE_SIZE
               :: PageFloor(base) <= p < PageCeil(SatAdd(base, length)))
       <==> SatAdd(base, length) <= U64_MAX + 1 - PAGE_SIZE || trackedPages <= PageFloor(base)
  {
    var end := SatAdd(base, length);
    if end <= U64_MAX + 1 - PAGE_SIZE {
      forall p: nat | p < trackedPages && p * PAGE_SIZE < base + length && base < (p + 1) * PAGE_SIZE
        ensures PageFloor(base) <= p < PageCeil(end)
      {
        assert p * PAGE_SIZE < end;
      }
    } else {
      assert PageCeil(end) == 0;
      var p := PageFloor(base);
      assert p * PAGE_SIZE <= base < (p + 1) * PAGE_SIZE;
    }
  }

  /** The tracked pages of an aligned range: what is free once `free_page` has been called on each page. */
  ghost function Releasable(base: U64, count: nat, trackedPages: nat): set<nat> {
    if base % PAGE_SIZE == 0 then Run(base / PAGE_SIZE, count) * Span(1, trackedPages) else {}
  }

  /** Every page of the range is one that `free_page` accepts. */
  ghost predicate AllHeld(base: U64, count: nat, trackedPages: nat, free: set<nat>) {
    base % PAGE_SIZE == 0 && Run(base / PAGE_SIZE, count) <= Span(1, trackedPages) - free
  }

  /** `free_page` accepts an aligned, tracked, used page other than page 0. */
  ghost predicate Accepts(free: set<nat>, phys: U64, trackedPages: nat) {
    phys % PAGE_SIZE == 0 && 1 <= phys / PAGE_SIZE < trackedPages && phys / PAGE_SIZE !in free
  }

  ghost function FreeOne(free: set<nat>, phys: U64, trackedPages: nat): set<nat> {
    if Accepts(free, phys, trackedPages) then free + {phys / PAGE_SIZE} else free
  }

  /** The address `free_pages_range` has reached after `done` steps. */
  function RangeCursor(base: U64, done: nat): U64 { SatAdd(base, done * PAGE_SIZE) }

  /** The free set after `count` steps of `free_pages_range`, and whether every step was accepted. */
  ghost function FreeEach(free: set<nat>, base: U64, count: nat, trackedPages: nat): (set<nat>, bool) {
    if count == 0 then (free, true)
    else
      var (before, ok) := FreeEach(free, base, count - 1, trackedPages);
      var current := RangeCursor(base, count - 1);
      (FreeOne(before, current, trackedPages), ok && Accepts(before, current, trackedPages))
  }

  /** Freeing a range page by page frees its tracked pages, and succeeds exactly when all were held. */
  lemma {:induction false} FreeEachIs(free: set<nat>, base: U64, count: nat, trackedPages: nat)
    requires trackedPages <= MAX_PAGES
    ensures FreeEach(free, base, count, trackedPages).0 == free + Releasable(base, count, trackedPages)
    ensures count > 0 ==> (FreeEach(free, base, count, trackedPages).1 <==> AllHeld(base, count, trackedPages, free))
  {
    if count > 0 {
      FreeEachIs(free, base, count - 1, trackedPages);
      var first := base / PAGE_SIZE;
      var done := count - 1;
      SpanStep(first, first + done);
      if base + done * PAGE_SIZE <= U64_MAX {
        assert RangeCursor(base, done) / PAGE_SIZE == first + done;
        assert RangeCursor(base, done) % PAGE_SIZE == base % PAGE_SIZE;
      } else {
        assert RangeCursor(base, done) % PAGE_SIZE != 0;
        assert first + done >= MAX_PAGES;
      }
      assert first + done in Run(first, count);
      if done > 0 { assert first in Run(first, done); }
    }
  }

  // ---------------------------------------------------------------- the bitmap

  /** One bit per page, 64 pages to a word; a set bit means the page is used. */
  class PageBitmap {
    const words: array<U64>
    ghost var free: set<nat>    // the simple form: the pages whose bit is clear

    predicate Bit(page: nat)
      requires words.Length == BITMAP_WORDS && page < MAX_PAGES
      reads words
    {
      TestBit(words[page / 64], page % 64)
    }

    ghost predicate Valid()
      reads this, words
    {
      && words.Length == BITMAP_WORDS
      && (forall p: nat {:trigger Bit(p)} | p < MAX_PAGES :: Bit(p) <==> p !in free)
      && (forall p :: p in free ==> p < MAX_PAGES)
    }

    constructor ()
      ensures Valid() && free == {} && fresh(words)
    {
      words := new U64[BITMAP_WORDS](_ => U64_MAX);
      free := {};
      new;
      WordRange(WORD_BITS);
      forall p: nat | p < MAX_PAGES ensures Bit(p) { AllOnes(WORD_BITS, p % 64); }
    }

    method IsUsed(page: nat) returns (used: bool)
      requires Valid() && page < MAX_PAGES
      ensures used == (page !in free)
    {
      used := Bit(page);
    }

    method SetUsed(page: nat)
      requires Valid() && page < MAX_PAGES
      modifies this, words
      ensures Valid() && free == old(free) - {page}
    {
      ghost var before := words[page / 64];
      WordRange(WORD_BITS);
      BitOpsKeepWidth(before, page % 64, WORD_BITS);
      words[page / 64] := SetBit(words[page / 64], page % 64);
      free := free - {page};
      forall p: nat | p < MAX_PAGES
        ensures Bit(p) <==> p == page || old(Bit(p))
      {
        if p / 64 == page / 64 { SetBitExact(before, page % 64, p % 64); }
      }
    }

    method SetFree(page: nat)
      requires Valid() && page < MAX_PAGES
      modifies this, words
      ensures Valid() && free == old(free) + {page}
    {
      ghost var before := words[page / 64];
      WordRange(WORD_BITS);
      BitOpsKeepWidth(before, page % 64, WORD_BITS);
      words[page / 64] := ClearBit(words[page / 64], page % 64);
      free := free + {page};
      forall p: nat | p < MAX_PAGES
        ensures Bit(p) <==> p != page && old(Bit(p))
      {
        if p / 64 == page / 64 { ClearBitExact(before, page % 64, p % 64); }
      }
    }

    /** Fills every word with ones. */
    method Fill()
      requires words.Length == BITMAP_WORDS
      modifies this, words
      ensures Valid() && free == {}
    {
      for i := 0 to BITMAP_WORDS
        invariant forall k :: 0 <= k < i ==> words[k] == U64_MAX
      {
        words[i] := U64_MAX;
      }
      free := {};
      WordRange(WORD_BITS);
      forall p: nat | p < MAX_PAGES ensures Bit(p) { AllOnes(WORD_BITS, p % 64); }
    }
  }

  // ---------------------------------------------------------------- the allocator

  class Pmm {
    const bits: PageBitmap
    var trackedPages: nat
    var freePages: nat
    var nextHint: nat
    var initialized: bool

    /** The simple form of the allocator: the set of free pages. */
    ghost function Free(): set<nat>
      reads bits
    {
      bits.free
    }

    /** The counter is the number of clear bits, and bits are clear only below `trackedPages`. */
    ghost predicate Counted()
      reads this, bits, bits.words
    {
      && bits.Valid()
      && trackedPages <= MAX_PAGES
      && freePages == |Free()|
      && (forall p :: p in Free() ==> p < trackedPages)
    }

    ghost predicate Valid()
      reads this, bits, bits.words
    {
      Counted() && 0 !in Free() && (!initialized ==> Free() == {})
    }

    constructor ()
      ensures Valid() && fresh(bits) && fresh(bits.words)
      ensures Free() == {} && trackedPages == 0 && !initialized
    {
      bits := new PageBitmap();
      trackedPages, freePages, nextHint, initialized := 0, 0, 0, false;
    }

    /** `init`: frees exactly the tracked pages, other than page 0, that lie in some usable region. */
    method Init(entries: seq<Region>)
      requires Counted()
      modifies this, bits, bits.words
      ensures Valid() && initialized && nextHint == 1
      ensures trackedPages == Min(PageCeil(Highest(entries)), MAX_PAGES)
      ensures forall p: nat :: p in Free() <==> 1 <= p < trackedPages && InUsable(entries, p)
    {
      hide PageBitmap.Valid, InUsable, Highest, PageCeil;
      Reset();
      var highest := FindHighest(entries);
      trackedPages := Min(PageCeil(highest), MAX_PAGES);
      assert Counted();
      hide Pmm.Counted;
      ReleaseUsable(entries);
      if trackedPages > 0 { Withdraw(0); }
    }

    method FindHighest(entries: seq<Region>) returns (highest: U64)
      ensures highest == Highest(entries)
    {
      highest := 0;
      for i := 0 to |entries|
        invariant highest == Highest(entries[..i])
      {
        assert entries[..i + 1][..i] == entries[..i];
        var end := SatAdd(entries[i].base, entries[i].length);
        if end > highest { highest := end; }
      }
      assert entries[..|entries|] == entries;
    }

    /** The second loop of `init`, from a bitmap with no free page. */
    method ReleaseUsable(entries: seq<Region>)
      requires Counted() && Free() == {}
      modifies this`freePages, bits, bits.words
      ensures Counted()
      ensures forall p: nat :: p in Free() <==> p < trackedPages && InUsable(entries, p)
    {
      for i := 0 to |entries|
        invariant Counted()
        invariant forall p: nat :: p in Free() <==> p < trackedPages && InUsable(entries[..i], p)
      {
        assert entries[..i + 1] == entries[..i] + [entries[i]];
        UsableStep(entries[..i], entries[i]);
        if entries[i].usable {
          ReleaseSpan(PageCeil(entries[i].base), Min(RegionLimit(entries[i]), trackedPages));
        }
      }
      assert entries[..|entries|] == entries;
    }

    /** `reset`: every page used, nothing tracked. */
    method Reset()
      requires Counted()
      modifies this, bits, bits.words
      ensures Valid() && initialized && nextHint == 1 && trackedPages == 0 && Free() == {}
    {
      bits.Fill();
      trackedPages, freePages, nextHint, initialized := 0, 0, 1, true;
    }

    /** Frees a page that is not free yet and counts it. */
    method Release(page: nat)
      requires Counted() && page < trackedPages
      modifies this`freePages, bits, bits.words
      ensures Counted() && Free() == old(Free()) + {page}
    {
      var used := bits.IsUsed(page);
      if used {
        bits.SetFree(page);
        freePages := freePages + 1;
      }
    }

    /** Takes a free page out of the pool and uncounts it; the counter cannot underflow. */
    method Withdraw(page: nat)
      requires Counted() && page < trackedPages
      modifies this`freePages, bits, bits.words
      ensures Counted() && Free() == old(Free()) - {page}
    {
      var used := bits.IsUsed(page);
      if !used {
        bits.SetUsed(page);
        freePages := freePages - 1;
      }
    }

    method ReleaseSpan(start: nat, limit: nat)
      requires Counted() && limit <= trackedPages
      modifies this`freePages, bits, bits.words
      ensures Counted() && Free() == old(Free()) + Span(start, limit)
    {
      hide Pmm.Counted, PageBitmap.Valid, Span;
      SpanEmpty(start, start);
      SpanEmpty(start, limit);
      for page := start to Max(start, limit)
        invariant Counted() && Free() == old(Free()) + Span(start, page)
      {
        Release(page);
        SpanStep(start, page);
      }
    }

    method WithdrawSpan(start: nat, limit: nat)
      requires Counted() && limit <= trackedPages
      modifies this`freePages, bits, bits.words
      ensures Counted() && Free() == old(Free()) - Span(start, limit)
    {
      hide Pmm.Counted, PageBitmap.Valid, Span;
      SpanEmpty(start, start);
      SpanEmpty(start, limit);
      for page := start to Max(start, limit)
        invariant Counted() && Free() == old(Free()) - Span(start, page)
      {
        Withdraw(page);
        SpanStep(start, page);
      }
    }

    /** True when every page of the run is free. */
    ghost predicate RunFree(first: nat, count: nat)
      reads bits
    {
      Run(first, count) <= Free()
    }

    method AllFree(first: nat, count: nat) returns (free: bool)
      requires bits.Valid() && first + count <= MAX_PAGES
      ensures free == RunFree(first, count)
    {
      var page := first;
      while page < first + count
        invariant first <= page <= first + count
        invariant forall p :: first <= p < page ==> p in Free()
      {
        var used := bits.IsUsed(page);
        if used {
          assert page in Run(first, count) && page !in Free();
          return false;
        }
        page := page + 1;
      }
      free := true;
    }

    method MarkRun(first: nat, count: nat)
      requires bits.Valid() && first + count <= MAX_PAGES
      modifies bits, bits.words
      ensures bits.Valid() && Free() == old(Free()) - Run(first, count)
    {
      var page := first;
      while page < first + count
        invariant bits.Valid() && first <= page <= first + count
        invariant Free() == old(Free()) - Span(first, page)
      {
        bits.SetUsed(page);
        page := page + 1;
      }
    }

    /** No run of `count` free pages starts at page 1 or later and ends at or before the bound. */
    ghost predicate NoFreeRun(count: nat, bound: nat)
      reads bits
    {
      forall first: nat | FIRST_ALLOCATABLE <= first && first + count <= bound :: !RunFree(first, count)
    }

    /**
     `alloc_pages_below`: sound (the run returned was wholly free and inside the bound, and
     exactly it becomes used), complete (None exactly when there is no such run), and first fit
     in the circular order that starts at the hint.
     */
    method AllocPagesBelow(count: nat, maxPhys: U64) returns (r: Option<U64>)
      requires Valid()
      modifies `freePages, `nextHint, bits, bits.words
      ensures Valid()
      ensures r.None? <==> count == 0 || !initialized || old(NoFreeRun(count, PageBound(maxPhys, trackedPages)))
      ensures r.None? ==> Free() == old(Free()) && nextHint == old(nextHint) && freePages == old(freePages)
      ensures r.Some? ==>
                var first := r.value / PAGE_SIZE;
                && r.value == first * PAGE_SIZE
                && FIRST_ALLOCATABLE <= first && first + count <= PageBound(maxPhys, trackedPages)
                && old(RunFree(first, count))
                && Free() == old(Free()) - Run(first, count)
                && nextHint == first + count
                && freePages == old(freePages) - count
      ensures r.Some? ==> var bound := PageBound(maxPhys, trackedPages);
                          old(FirstFit(r.value / PAGE_SIZE, count, bound))
      ensures r.Some? && (maxPhys % PAGE_SIZE == 0 || trackedPages * PAGE_SIZE <= maxPhys) ==> r.value + count * PAGE_SIZE <= maxPhys
    {
      hide PageBitmap.Valid, FirstFit, NoFreeRun, Slot, ScanStart, Span;
      BoundIsRespectedExactlyWhen(maxPhys, trackedPages);
      if count == 0 { return None; }
      if !initialized { return None; }
      var bound := PageBound(maxPhys, trackedPages);
      if freePages < count || trackedPages < count
         || trackedPages <= FIRST_ALLOCATABLE || trackedPages - FIRST_ALLOCATABLE < count
         || bound <= FIRST_ALLOCATABLE || bound - FIRST_ALLOCATABLE < count {
        TooFewPages(count, bound);
        return None;
      }

      var found := FindRun(count, bound);
      if found.Some? {
        var first := found.value;
        MarkRun(first, count);
        SpanSize(first, first + count);
        SubsetSize(Run(first, count), old(Free()));
        freePages := freePages - count;
        nextHint := first + count;
        return Some(first * PAGE_SIZE);
      }
      return None;
    }

    /** The scan loop of `alloc_pages_below`. */
    method FindRun(count: nat, bound: nat) returns (r: Option<nat>)
      requires Valid() && bound <= trackedPages && FIRST_ALLOCATABLE + count <= bound
      ensures r.None? <==> NoFreeRun(count, bound)
      ensures r.Some? ==>
                && FIRST_ALLOCATABLE <= r.value && r.value + count <= bound
                && RunFree(r.value, count)
                && FirstFit(r.value, count, bound)
    {
      var start := ScanStart(nextHint, bound, count);
      var slots := bound - count;    // bound - count - FIRST_ALLOCATABLE + 1 start pages
      var offset := 0;
      while offset < slots
        invariant 0 <= offset <= slots
        invariant forall o: nat | o < offset :: !RunFree(Slot(start, o, slots), count)
      {
        var first := Slot(start, offset, slots);
        var free := AllFree(first, count);
        if free {
          assert FitAt(first, offset, count, bound);
          return Some(first);
        }
        offset := offset + 1;
      }
      ScanFoundNothing(start, slots, count, bound);
      return None;
    }

    /** `first` is the earliest start, in circular scan order from the hint, of a free run. */
    ghost predicate FirstFit(first: nat, count: nat, bound: nat)
      requires count < bound
      reads bits, this
    {
      exists offset: nat :: FitAt(first, offset, count, bound)
    }

    ghost predicate FitAt(first: nat, offset: nat, count: nat, bound: nat)
      requires count < bound
      reads bits, this
    {
      var start, slots := ScanStart(nextHint, bound, count), bound - count;
      && offset < slots && first == Slot(start, offset, slots)
      && (forall o: nat | o < offset :: !RunFree(Slot(start, o, slots), count))
    }

    lemma TooFewPages(count: nat, bound: nat)
      requires Valid() && bound <= trackedPages
      requires count > 0
      requires freePages < count || bound <= FIRST_ALLOCATABLE || bound - FIRST_ALLOCATABLE < count
      ensures NoFreeRun(count, bound)
    {
      forall first: nat | FIRST_ALLOCATABLE <= first && first + count <= bound
        ensures !RunFree(first, count)
      {
        SpanSize(first, first + count);
        if RunFree(first, count) { SubsetSize(Run(first, count), Free()); }
      }
    }

    lemma ScanFoundNothing(start: nat, slots: nat, count: nat, bound: nat)
      requires slots > 0 && slots + count == bound
      requires FIRST_ALLOCATABLE <= start < FIRST_ALLOCATABLE + slots
      requires forall o: nat | o < slots :: !RunFree(Slot(start, o, slots), count)
      ensures NoFreeRun(count, bound)
    {
      forall first: nat | FIRST_ALLOCATABLE <= first && first + count <= bound
        ensures !RunFree(first, count)
      {
        var offset := ScanVisits(start, slots, first);
        assert !RunFree(Slot(start, offset, slots), count);
      }
    }

    /** `alloc_pages` and, with count 1, `alloc_page`. */
    method AllocPages(count: nat) returns (r: Option<U64>)
      requires Valid()
      modifies `freePages, `nextHint, bits, bits.words
      ensures Valid()
      ensures r.None? <==> count == 0 || !initialized || old(NoFreeRun(count, trackedPages))
      ensures r.None? ==> Free() == old(Free()) && freePages == old(freePages)
      ensures r.Some? ==>
                var first := r.value / PAGE_SIZE;
                && r.value == first * PAGE_SIZE
                && FIRST_ALLOCATABLE <= first && first + count <= trackedPages
                && old(RunFree(first, count))
                && Free() == old(Free()) - Run(first, count)
                && freePages == old(freePages) - count
    {
      r := AllocPagesBelow(count, U64_MAX);
    }

    /** `alloc_page`: fails only when no page is free. */
    method AllocPage() returns (r: Option<U64>)
      requires Valid()
      modifies `freePages, `nextHint, bits, bits.words
      ensures Valid()
      ensures r.None? <==> old(Free()) == {}
      ensures r.None? <==> old(freePages) == 0
      ensures r.None? ==> Free() == {}
      ensures freePages == old(freePages) - (if r.Some? then 1 else 0)
      ensures r.Some? ==>
                var page := r.value / PAGE_SIZE;
                && r.value == page * PAGE_SIZE && 1 <= page < MAX_PAGES
                && page in old(Free()) && Free() == old(Free()) - {page}
    {
      OnePageRuns();
      r := AllocPages(1);
      assert r.Some? ==> Run(r.value / PAGE_SIZE, 1) == {r.value / PAGE_SIZE};
    }

    lemma OnePageRuns()
      requires Valid()
      ensures NoFreeRun(1, trackedPages) <==> Free() == {}
      ensures forall first: nat :: RunFree(first, 1) <==> first in Free()
    {
      forall first: nat
        ensures RunFree(first, 1) <==> first in Free()
      {
        assert Run(first, 1) == {first};
      }
    }

    /** `free_page`: succeeds exactly on a tracked, used, non-zero page, and frees exactly it. */
    method FreePage(phys: U64) returns (ok: bool)
      requires Valid()
      modifies `freePages, `nextHint, bits, bits.words
      ensures Valid()
      ensures ok == (initialized && Accepts(old(Free()), phys, trackedPages))
      ensures Free() == if initialized then FreeOne(old(Free()), phys, trackedPages) else old(Free())
      ensures nextHint == if ok then Min(old(nextHint), phys / PAGE_SIZE) else old(nextHint)
    {
      if phys % PAGE_SIZE != 0 { return false; }
      if !initialized { return false; }
      var page := phys / PAGE_SIZE;
      if page == 0 || page >= trackedPages { return false; }
      var used := bits.IsUsed(page);
      if !used { return false; }
      bits.SetFree(page);
      freePages := freePages + 1;
      if page < nextHint { nextHint := page; }
      ok := true;
    }

    /** `free_pages_range`: frees every tracked page of the range and reports whether all were there to free. */
    method FreePagesRange(base: U64, count: nat) returns (ok: bool)
      requires Valid()
      modifies `freePages, `nextHint, bits, bits.words
      ensures Valid()
      ensures Free() == old(Free()) + (if initialized then Releasable(base, count, trackedPages) else {})
      ensures ok == (count > 0 && initialized && AllHeld(base, count, trackedPages, old(Free())))
    {
      FreeEachIs(Free(), base, count, trackedPages);
      hide Pmm.Valid, Releasable, AllHeld, FreeOne, Accepts;
      if count == 0 { return false; }
      ok := true;
      var current := base;
      for done := 0 to count
        invariant Valid()
        invariant current == RangeCursor(base, done)
        invariant initialized ==> (Free(), ok) == FreeEach(old(Free()), base, done, trackedPages)
        invariant !initialized ==> Free() == old(Free()) && ok == (done == 0)
      {
        var freed := FreePage(current);
        if !freed { ok := false; }
        current := SatAdd(current, PAGE_SIZE);
      }
    }

    /** `reserve`: marks exactly the tracked pages of the rounded-out range as used. */
    method Reserve(base: U64, length: U64)
      requires Valid()
      modifies this`freePages, bits, bits.words
      ensures Valid()
      ensures Free() == if !initialized || length == 0 then old(Free())
                        else old(Free()) - Span(PageFloor(base), PageCeil(SatAdd(base, length)))
    {
      if !initialized || length == 0 { return; }
      WithdrawSpan(PageFloor(base), Min(PageCeil(SatAdd(base, length)), trackedPages));
    }

    /** Free and used pages add up to the total (the accounting test of `memory/tests.rs`). */
    method Stats() returns (total: nat, free: nat, used: nat)
      requires Valid()
      ensures initialized ==> total == trackedPages && free == |Free()|
      ensures !initialized ==> total == 0 && free == 0
      ensures total == free + used
    {
      if !initialized { return 0, 0, 0; }
      SpanSize(0, trackedPages);
      SubsetSize(Free(), Run(0, trackedPages));
      return trackedPages, freePages, SatSub(trackedPages, freePages);
    }
  }

  // ---------------------------------------------------------------- inputs at which a promise fails

  /** An allocator whose free pages are just this run. */
  method FreshRun(page: nat, count: nat) returns (pmm: Pmm)
    requires 1 <= page && 1 <= count && page + count <= MAX_PAGES
    ensures fresh(pmm) && fresh(pmm.bits) && fresh(pmm.bits.words)
    ensures pmm.Valid() && pmm.initialized && pmm.trackedPages == page + count && pmm.Free() == Run(page, count) && pmm.freePages == count
  {
    var region := Region(page * PAGE_SIZE, count * PAGE_SIZE, true);
    pmm := new Pmm();
    pmm.Init([region]);
    assert [region][..0] == [];
    assert Highest([region]) == (page + count) * PAGE_SIZE;
    OnlyRun(page, count);
    SpanSize(page, page + count);
    SpanMembers(page, page + count);
    assert pmm.Free() == Run(page, count);
  }

  lemma OnlyRun(page: nat, count: nat)
    requires 1 <= page && 1 <= count && page + count <= MAX_PAGES
    ensures forall p: nat :: InUsable([Region(page * PAGE_SIZE, count * PAGE_SIZE, true)], p) <==> page <= p < page + count
    ensures PageCeil((page + count) * PAGE_SIZE) == page + count
  {
    var region := Region(page * PAGE_SIZE, count * PAGE_SIZE, true);
    assert PageCeil(region.base) == page && RegionLimit(region) == page + count;
    assert region in [region];
  }

  /** An allocator with a single free page. */
  method OnePage(page: nat) returns (pmm: Pmm)
    requires 1 <= page < MAX_PAGES
    ensures fresh(pmm) && fresh(pmm.bits) && fresh(pmm.bits.words)
    ensures pmm.Valid() && pmm.initialized && pmm.trackedPages == page + 1 && pmm.Free() == {page} && pmm.freePages == 1
  {
    pmm := FreshRun(page, 1);
    assert Run(page, 1) == {page};
  }

  /** For every unaligned bound inside the page limit there is a state where the page returned crosses it. */
  method BoundIsCrossed(maxPhys: U64) returns (r: Option<U64>)
    requires PAGE_SIZE < maxPhys < MAX_PAGES * PAGE_SIZE && maxPhys % PAGE_SIZE != 0
    ensures r.Some? && r.value < maxPhys < r.value + PAGE_SIZE
  {
    var page := maxPhys / PAGE_SIZE;
    var pmm := OnePage(page);
    assert Run(page, 1) == {page};
    assert pmm.RunFree(page, 1);
    r := pmm.AllocPagesBelow(1, maxPhys);
    assert r.Some? ==> r.value / PAGE_SIZE in Run(r.value / PAGE_SIZE, 1);
  }

  /** Reserving everything from the first page up wraps around: the page is still handed out. */
  method ReservedPageIsAllocated() returns (r: Option<U64>)
    ensures r == Some(PAGE_SIZE)
  {
    var pmm := OnePage(1);
    pmm.Reserve(PAGE_SIZE, U64_MAX);
    assert PageCeil(SatAdd(PAGE_SIZE, U64_MAX)) == 0;
    assert pmm.Free() == {1};
    r := pmm.AllocPage();
  }

  /** A region that ends in the last page of the address range hides all usable memory from `init`. */
  method LastPageHidesMemory() returns (r: Option<U64>)
    ensures r == None
  {
    var entries := [Region(PAGE_SIZE, PAGE_SIZE, true), Region(U64_MAX - 1, 1, false)];
    var pmm := new Pmm();
    pmm.Init(entries);
    assert entries[1] in entries;
    assert U64_MAX <= Highest(entries);
    assert PageCeil(Highest(entries)) == 0;
    assert forall p :: p in pmm.Free() ==> false;
    assert pmm.Free() == {};
    r := pmm.AllocPage();
  }
}
