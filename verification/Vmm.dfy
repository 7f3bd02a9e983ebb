/**
 The list of recorded mappings kept beside the page tables. The list is the
 simple form of the address space: `Refines` says that the four-level walk gives
 each recorded page its physical target and every other page what it had before.
 */
module VirtMem {
  import opened Machine
  import opened PageTable
  import opened PhysMem
  import opened Paging

  const KERNEL_VIRT_BASE: nat := 0xFFFF_8000_0000_0000

  datatype Mapping = Mapping(virt: U64, phys: U64, pages: nat, flags: set<VmmFlag>, owner: string, ownedPhysical: bool)

  /** `checked_range_end`. */
  function RangeEnd(start: U64, pages: nat): Option<U64> {
    if start + pages * PAGE_SIZE > U64_MAX then None else Some(start + pages * PAGE_SIZE)
  }

  predicate RangesOverlap(aStart: nat, aEnd: nat, bStart: nat, bEnd: nat) {
    aStart < bEnd && bStart < aEnd
  }

  /** The end of a recorded range, as `mapping_range` computes it. */
  function MappingEnd(m: Mapping): nat {
    match RangeEnd(m.virt, m.pages)
    case Some(e) => e
    case None => m.virt
  }

  ghost predicate RangeOk(m: Mapping) {
    m.virt % PAGE_SIZE == 0 && m.phys % PAGE_SIZE == 0 && m.pages > 0 && m.virt + m.pages * PAGE_SIZE <= U64_MAX
  }

  // ---------------------------------------------------------------- the list refines the walk

  /** Page `k` of mapping `m` is mapped by the walk to its target, and was unmapped in the base tables. */
  ghost predicate PageRecorded(tables: Tables, shape: Shape, blocked: set<Node>, base: VPage -> Entry, m: Mapping, k: nat) {
    var p := NthPage(m.virt, k);
    Leaf(tables, shape, p) == NthEntry(m.phys, k, m.flags) && Plain(blocked, p) && base(p) == EMPTY
  }

  ghost predicate Covered(maps: seq<Mapping>, p: VPage) {
    exists i: nat :: i < |maps| && InPages(maps[i].virt, maps[i].pages, p)
  }

  /** No page is recorded twice, within one mapping or in two. */
  ghost predicate PagesDistinct(maps: seq<Mapping>) {
    forall i: nat, k: nat, j: nat, l: nat
      | i < |maps| && k < maps[i].pages && j < |maps| && l < maps[j].pages
        && NthPage(maps[i].virt, k) == NthPage(maps[j].virt, l)
      :: i == j && k == l
  }

  ghost predicate Refines(tables: Tables, shape: Shape, blocked: set<Node>, base: VPage -> Entry, maps: seq<Mapping>) {
    && (forall i: nat, k: nat | i < |maps| && k < maps[i].pages :: PageRecorded(tables, shape, blocked, base, maps[i], k))
    && PagesDistinct(maps)
    && (forall p: VPage | p.Ok() && Plain(blocked, p) && !Covered(maps, p) :: Leaf(tables, shape, p) == base(p))
  }

  lemma RefinesTransfer(t0: Tables, s0: Shape, t1: Tables, s1: Shape, blocked: set<Node>, base: VPage -> Entry, maps: seq<Mapping>)
    requires Refines(t0, s0, blocked, base, maps) && SameLeaves(t0, s0, t1, s1)
    ensures Refines(t1, s1, blocked, base, maps)
  {
    hide PageOf, Leaf;
    forall i: nat, k: nat | i < |maps| && k < maps[i].pages
      ensures PageRecorded(t1, s1, blocked, base, maps[i], k)
    {
      assert PageRecorded(t0, s0, blocked, base, maps[i], k);
    }
  }

  lemma CoveredAppend(maps: seq<Mapping>, m: Mapping, p: VPage)
    ensures Covered(maps + [m], p) <==> Covered(maps, p) || InPages(m.virt, m.pages, p)
  {
    hide InPages;
    if Covered(maps, p) {
      var i: nat :| i < |maps| && InPages(maps[i].virt, maps[i].pages, p);
      assert (maps + [m])[i] == maps[i];
    }
    assert (maps + [m])[|maps|] == m;
  }

  /** Mapping a range of unmapped plain pages and recording it keeps the refinement. */
  lemma RecordKeepsRefinement(t0: Tables, s0: Shape, t1: Tables, s1: Shape, blocked: set<Node>, base: VPage -> Entry,
                              maps: seq<Mapping>, m: Mapping)
    requires Refines(t0, s0, blocked, base, maps)
    requires PagesWritten(t0, s0, t1, s1, m.virt, m.phys, m.pages, m.flags)
    requires PlainRange(blocked, m.virt, m.pages)
    ensures Refines(t1, s1, blocked, base, maps + [m])
  {
    hide PageOf, Leaf;
    var all := maps + [m];
    forall k: nat | k < m.pages
      ensures !Covered(maps, NthPage(m.virt, k))
      ensures PageRecorded(t1, s1, blocked, base, m, k)
    {
      NotCoveredWhenEmpty(t0, s0, blocked, base, maps, NthPage(m.virt, k));
    }
    forall i: nat, k: nat | i < |all| && k < all[i].pages
      ensures PageRecorded(t1, s1, blocked, base, all[i], k)
    {
      if i < |maps| {
        assert PageRecorded(t0, s0, blocked, base, maps[i], k);
        OldPageStays(t0, s0, blocked, base, maps, m, i, k);
      }
    }
    forall p: VPage | p.Ok() && Plain(blocked, p) && !Covered(all, p)
      ensures Leaf(t1, s1, p) == base(p)
    {
      CoveredAppend(maps, m, p);
    }
    DistinctAppend(maps, m);
  }

  lemma NotCoveredWhenEmpty(t: Tables, s: Shape, blocked: set<Node>, base: VPage -> Entry, maps: seq<Mapping>, p: VPage)
    requires Refines(t, s, blocked, base, maps) && p.Ok() && Leaf(t, s, p) == EMPTY
    ensures !Covered(maps, p)
  {
    hide PageOf, Leaf;
    forall i: nat, k: nat | i < |maps| && k < maps[i].pages
      ensures NthPage(maps[i].virt, k) != p
    {
      assert PageRecorded(t, s, blocked, base, maps[i], k);
    }
  }

  lemma OldPageStays(t: Tables, s: Shape, blocked: set<Node>, base: VPage -> Entry, maps: seq<Mapping>, m: Mapping, i: nat, k: nat)
    requires i < |maps| && k < maps[i].pages
    requires forall l: nat | l < m.pages :: !Covered(maps, NthPage(m.virt, l))
    ensures !InPages(m.virt, m.pages, NthPage(maps[i].virt, k))
  {
    hide PageOf;
    assert InPages(maps[i].virt, maps[i].pages, NthPage(maps[i].virt, k));
  }

  lemma DistinctAppend(maps: seq<Mapping>, m: Mapping)
    requires PagesDistinct(maps)
    requires forall j: nat, k: nat | j < k < m.pages :: NthPage(m.virt, j) != NthPage(m.virt, k)
    requires forall l: nat | l < m.pages :: !Covered(maps, NthPage(m.virt, l))
    ensures PagesDistinct(maps + [m])
  {
    hide PageOf;
    var all := maps + [m];
    forall i: nat, k: nat, j: nat, l: nat
      | i < |all| && k < all[i].pages && j < |all| && l < all[j].pages
        && NthPage(all[i].virt, k) == NthPage(all[j].virt, l)
      ensures i == j && k == l
    {
      if i < |maps| { assert InPages(maps[i].virt, maps[i].pages, NthPage(maps[i].virt, k)); }
      if j < |maps| { assert InPages(maps[j].virt, maps[j].pages, NthPage(maps[j].virt, l)); }
    }
  }

  function RemoveAt<T>(s: seq<T>, i: nat): seq<T>
    requires i < |s|
  {
    s[..i] + s[i + 1..]
  }

  /** Unmapping the pages of a recorded range and dropping its record keeps the refinement. */
  lemma DropKeepsRefinement(t0: Tables, s0: Shape, t1: Tables, s1: Shape, blocked: set<Node>, base: VPage -> Entry,
                            maps: seq<Mapping>, idx: nat)
    requires Refines(t0, s0, blocked, base, maps) && idx < |maps|
    requires PagesCleared(t0, s0, t1, s1, maps[idx].virt, maps[idx].pages)
    ensures Refines(t1, s1, blocked, base, RemoveAt(maps, idx))
  {
    hide PageOf, Leaf;
    var rest := RemoveAt(maps, idx);
    var m := maps[idx];
    forall i: nat, k: nat | i < |rest| && k < rest[i].pages
      ensures PageRecorded(t1, s1, blocked, base, rest[i], k)
    {
      var o := if i < idx then i else i + 1;
      assert rest[i] == maps[o] && PageRecorded(t0, s0, blocked, base, maps[o], k);
      assert !InPages(m.virt, m.pages, NthPage(maps[o].virt, k));
    }
    forall i: nat, k: nat, j: nat, l: nat
      | i < |rest| && k < rest[i].pages && j < |rest| && l < rest[j].pages
        && NthPage(rest[i].virt, k) == NthPage(rest[j].virt, l)
      ensures i == j && k == l
    {
      var o, q := if i < idx then i else i + 1, if j < idx then j else j + 1;
      assert rest[i] == maps[o] && rest[j] == maps[q];
    }
    forall p: VPage | p.Ok() && Plain(blocked, p) && !Covered(rest, p)
      ensures Leaf(t1, s1, p) == base(p)
    {
      if InPages(m.virt, m.pages, p) {
        var k: nat :| k < m.pages && NthPage(m.virt, k) == p;
        assert PageRecorded(t0, s0, blocked, base, m, k);
      } else {
        OnlyDropped(maps, idx, p);
      }
    }
  }

  lemma OnlyDropped(maps: seq<Mapping>, idx: nat, p: VPage)
    requires idx < |maps|
    requires !Covered(RemoveAt(maps, idx), p) && !InPages(maps[idx].virt, maps[idx].pages, p)
    ensures !Covered(maps, p)
  {
    hide InPages;
    var rest := RemoveAt(maps, idx);
    forall i: nat | i < |maps|
      ensures !InPages(maps[i].virt, maps[i].pages, p)
    {
      if i < idx { assert rest[i] == maps[i]; }
      if i > idx { assert rest[i - 1] == maps[i]; }
    }
  }

  // ---------------------------------------------------------------- the refinement on addresses

  predicate InRange(m: Mapping, v: nat) { m.virt <= v < m.virt + m.pages * PAGE_SIZE }

  /** Bits 48 to 63 of a canonical address repeat bit 47. */
  predicate Canonical(v: nat) { v < 0x8000_0000_0000 || KERNEL_VIRT_BASE <= v <= U64_MAX }

  predicate CanonicalRange(m: Mapping) { CanonicalSpan(m.virt, m.pages) }

  predicate CanonicalSpan(virt: nat, pages: nat) {
    virt + pages * PAGE_SIZE <= 0x8000_0000_0000 || KERNEL_VIRT_BASE <= virt
  }

  predicate AllCanonical(maps: seq<Mapping>) { forall m :: m in maps ==> CanonicalRange(m) }

  lemma SamePageSameIndices(v: nat, w: nat)
    requires v / PAGE_SIZE == w / PAGE_SIZE
    ensures PageOf(v) == PageOf(w)
  {
    var a := v / PAGE_SIZE;
    assert v / 0x20_0000 == a / 512 == w / 0x20_0000;
    assert v / 0x4000_0000 == a / 512 / 512 == w / 0x4000_0000;
    assert v / 0x80_0000_0000 == a / 512 / 512 / 512 == w / 0x80_0000_0000;
  }

  /** An address inside a recorded range lies on one of its recorded pages. */
  lemma AddressPage(m: Mapping, v: nat) returns (k: nat)
    requires m.virt % PAGE_SIZE == 0 && InRange(m, v)
    ensures k == (v - m.virt) / PAGE_SIZE && k < m.pages && NthPage(m.virt, k) == PageOf(v)
    ensures v == m.virt + k * PAGE_SIZE + Offset(v)
  {
    k := (v - m.virt) / PAGE_SIZE;
    assert (v - m.virt) % PAGE_SIZE == Offset(v);
    SamePageSameIndices(m.virt + k * PAGE_SIZE, v);
  }

  /** The recorded target is phys + (v - virt) exactly when that frame fits the 52-bit address field. */
  lemma TargetExactlyWhen(m: Mapping, k: nat, v: nat)
    requires m.phys % PAGE_SIZE == 0 && v == m.virt + k * PAGE_SIZE + Offset(v)
    ensures Reached(NthEntry(m.phys, k, m.flags), Offset(v)) == Some(m.phys + (v - m.virt))
       <==> m.phys + k * PAGE_SIZE < PHYS_LIMIT
  {
    var target := SatAdd(m.phys, k * PAGE_SIZE);
    if m.phys + k * PAGE_SIZE <= U64_MAX {
      assert target % PAGE_SIZE == 0;
      AddressKeptExactlyWhen(target);
    }
  }

  /** A page mapped to 2^52 translates to 0. */
  lemma HighTargetIsLost(flags: set<VmmFlag>)
    ensures Reached(NthEntry(PHYS_LIMIT, 0, flags), 0) == Some(0)
  {
    assert SatAdd(PHYS_LIMIT, 0 * PAGE_SIZE) == PHYS_LIMIT && AddrField(PHYS_LIMIT) == 0;
  }

  /** Canonical addresses with the same indices lie on the same page. */
  lemma CanonicalInjective(v: nat, w: nat)
    requires Canonical(v) && Canonical(w) && PageOf(v) == PageOf(w)
    ensures v / PAGE_SIZE == w / PAGE_SIZE
  {
    IndicesRebuildAddress(v);
    IndicesRebuildAddress(w);
    hide PageOf;
    LowBits(v);
    LowBits(w);
    assert v - Offset(v) == w - Offset(w);
  }

  lemma LowBits(v: nat)
    requires Canonical(v)
    ensures v % 0x1_0000_0000_0000 == if v < 0x8000_0000_0000 then v else v - 0xFFFF_0000_0000_0000
  {
  }

  /**
   The address-space theorem. In every state where the list refines the walk, an address of a recorded range
   translates to phys + (v - virt), exactly when that frame is below 2^52; and when all recorded ranges are
   canonical, any other canonical address translates as it did in the base tables.
   */
  lemma AddressSpace(t: Tables, s: Shape, blocked: set<Node>, base: VPage -> Entry, maps: seq<Mapping>, v: nat)
    requires Refines(t, s, blocked, base, maps) && Plain(blocked, PageOf(v))
    requires forall m :: m in maps ==> RangeOk(m)
    ensures forall m :: m in maps && InRange(m, v) ==>
              (Reached(Leaf(t, s, PageOf(v)), Offset(v)) == Some(m.phys + (v - m.virt)) <==> FrameOf(m, v) < PHYS_LIMIT)
    ensures Canonical(v) && AllCanonical(maps) && (forall m :: m in maps ==> !InRange(m, v)) ==>
              Reached(Leaf(t, s, PageOf(v)), Offset(v)) == Reached(base(PageOf(v)), Offset(v))
  {
    hide PageOf, Leaf, NthEntry;
    forall m | m in maps && InRange(m, v)
      ensures Reached(Leaf(t, s, PageOf(v)), Offset(v)) == Some(m.phys + (v - m.virt)) <==> FrameOf(m, v) < PHYS_LIMIT
    {
      var i :| 0 <= i < |maps| && maps[i] == m;
      var k := AddressPage(m, v);
      assert PageRecorded(t, s, blocked, base, maps[i], k);
      TargetExactlyWhen(m, k, v);
    }
    if Canonical(v) && AllCanonical(maps) && forall m :: m in maps ==> !InRange(m, v) {
      OutsideIsUncovered(maps, v);
    }
  }

  /** The physical page an address of the mapping is meant for. */
  function FrameOf(m: Mapping, v: nat): nat
    requires m.virt <= v
  {
    m.phys + (v - m.virt) / PAGE_SIZE * PAGE_SIZE
  }

  lemma OutsideIsUncovered(maps: seq<Mapping>, v: nat)
    requires forall m :: m in maps ==> RangeOk(m) && CanonicalRange(m) && !InRange(m, v)
    requires Canonical(v)
    ensures !Covered(maps, PageOf(v))
  {
    hide PageOf;
    forall i: nat, k: nat | i < |maps| && k < maps[i].pages
      ensures NthPage(maps[i].virt, k) != PageOf(v)
    {
      var m := maps[i];
      assert m in maps;
      var w := m.virt + k * PAGE_SIZE;
      if PageOf(w) == PageOf(v) {
        CanonicalInjective(w, v);
        PageInside(m, k, v);
      }
    }
  }

  lemma PageInside(m: Mapping, k: nat, v: nat)
    requires RangeOk(m) && k < m.pages && (m.virt + k * PAGE_SIZE) / PAGE_SIZE == v / PAGE_SIZE
    ensures InRange(m, v)
  {
    assert (m.virt + k * PAGE_SIZE) % PAGE_SIZE == 0;
    assert m.virt + k * PAGE_SIZE <= v < m.virt + (k + 1) * PAGE_SIZE;
  }

  // ---------------------------------------------------------------- frames owned by mappings

  ghost function FramesOf(m: Mapping): set<nat> {
    if m.ownedPhysical then Run(m.phys / PAGE_SIZE, m.pages) else {}
  }

  /** Frames that an owned mapping will free are held, hold no table, and belong to no other owned mapping. */
  ghost predicate OwnedOk(maps: seq<Mapping>, tables: set<nat>, free: set<nat>) {
    && (forall i: nat, f | i < |maps| && f in FramesOf(maps[i]) :: FrameHeld(f, tables, free))
    && (forall i: nat, j: nat | i < j < |maps| :: FramesOf(maps[i]) !! FramesOf(maps[j]))
  }

  ghost predicate FrameHeld(f: nat, tables: set<nat>, free: set<nat>) {
    f !in free && f * PAGE_SIZE !in tables
  }

  lemma OwnedStays(maps: seq<Mapping>, t0: set<nat>, f0: set<nat>, t1: set<nat>, f1: set<nat>)
    requires OwnedOk(maps, t0, f0) && f1 <= f0
    requires forall f :: f in t1 && f !in t0 ==> f / PAGE_SIZE in f0
    ensures OwnedOk(maps, t1, f1)
  {
    hide FramesOf;
    forall i: nat, f | i < |maps| && f in FramesOf(maps[i])
      ensures FrameHeld(f, t1, f1)
    {
      assert FrameHeld(f, t0, f0);
      assert f * PAGE_SIZE / PAGE_SIZE == f;
    }
  }

  lemma OwnedAccounted(maps: seq<Mapping>, t0: set<nat>, f0: set<nat>, t1: set<nat>, f1: set<nat>)
    requires OwnedOk(maps, t0, f0) && Accounted(t0, f0, t1, f1)
    ensures OwnedOk(maps, t1, f1)
  {
    hide OwnedOk;
    OwnedStays(maps, t0, f0, t1, f1);
  }

  lemma OwnedAppend(maps: seq<Mapping>, m: Mapping, tables: set<nat>, free: set<nat>)
    requires OwnedOk(maps, tables, free)
    requires forall f :: f in FramesOf(m) ==> FrameHeld(f, tables, free)
    requires forall i: nat | i < |maps| :: FramesOf(maps[i]) !! FramesOf(m)
    ensures OwnedOk(maps + [m], tables, free)
  {
    hide FramesOf;
  }

  lemma OwnedDrop(maps: seq<Mapping>, idx: nat, tables: set<nat>, f0: set<nat>, f1: set<nat>)
    requires OwnedOk(maps, tables, f0) && idx < |maps|
    requires f1 <= f0 + FramesOf(maps[idx])
    ensures OwnedOk(RemoveAt(maps, idx), tables, f1)
  {
    hide FramesOf;
    var rest := RemoveAt(maps, idx);
    forall i: nat, f | i < |rest| && f in FramesOf(rest[i])
      ensures FrameHeld(f, tables, f1)
    {
      var o := if i < idx then i else i + 1;
      assert rest[i] == maps[o] && FrameHeld(f, tables, f0);
      assert FramesOf(maps[o]) !! FramesOf(maps[idx]);
    }
    forall i: nat, j: nat | i < j < |rest|
      ensures FramesOf(rest[i]) !! FramesOf(rest[j])
    {
      var o, q := if i < idx then i else i + 1, if j < idx then j else j + 1;
      assert rest[i] == maps[o] && rest[j] == maps[q];
    }
  }

  // ---------------------------------------------------------------- the manager

  /** The checks `map` makes before touching the tables, in its order. */
  ghost function MapRefusal(initialized: bool, maps: seq<Mapping>, virt: U64, phys: U64, pages: nat,
                            flags: set<VmmFlag>, owner: string): Option<VmmError> {
    if pages == 0 then Some(ZeroPages)
    else if owner == "" then Some(EmptyOwner)
    else if virt % PAGE_SIZE != 0 || phys % PAGE_SIZE != 0 then Some(Unaligned)
    else if RangeEnd(virt, pages).None? then Some(RangeOverflow)
    else if !initialized then Some(NotInitialized)
    else if FUser !in flags && virt < KERNEL_VIRT_BASE then Some(KernelInLowHalf)
    else if OverlapsAny(maps, virt, virt + pages * PAGE_SIZE) then Some(Overlap)
    else None
  }

  /** The refusals of `map_physical_anywhere`, in its order of tests. */
  ghost function AnywhereRefusal(initialized: bool, maps: seq<Mapping>, virt: U64, phys: U64, pages: nat, flags: set<VmmFlag>, owner: string): Option<VmmError> {
    if pages == 0 then Some(ZeroPages)
    else if phys % PAGE_SIZE != 0 then Some(Unaligned)
    else if !initialized then Some(NotInitialized)
    else if RangeEnd(virt, pages).None? then Some(RangeOverflow)
    else MapRefusal(true, maps, virt, phys, pages, flags, owner)
  }

  ghost predicate OverlapsAny(maps: seq<Mapping>, start: nat, end: nat) {
    exists i: nat :: i < |maps| && RangesOverlap(start, end, maps[i].virt, MappingEnd(maps[i]))
  }

  lemma OwnershipIsBookkeeping(t: Tables, s: Shape, blocked: set<Node>, base: VPage -> Entry, maps: seq<Mapping>, m: Mapping)
    requires Refines(t, s, blocked, base, maps + [m])
    ensures Refines(t, s, blocked, base, maps + [m.(ownedPhysical := true)])
  {
    hide PageOf, Leaf;
    var before, after := maps + [m], maps + [m.(ownedPhysical := true)];
    forall i: nat, k: nat | i < |after| && k < after[i].pages
      ensures PageRecorded(t, s, blocked, base, after[i], k)
    {
      assert PageRecorded(t, s, blocked, base, before[i], k);
    }
    forall p: VPage ensures Covered(after, p) <==> Covered(before, p) {
      CoveredAppend(maps, m, p);
      CoveredAppend(maps, m.(ownedPhysical := true), p);
    }
    assert PagesDistinct(after) by {
      forall i: nat, k: nat, j: nat, l: nat
        | i < |after| && k < after[i].pages && j < |after| && l < after[j].pages
          && NthPage(after[i].virt, k) == NthPage(after[j].virt, l)
        ensures i == j && k == l
      {
        assert NthPage(before[i].virt, k) == NthPage(before[j].virt, l);
      }
    }
  }

  /** The caller owns the frames: they are held, hold no table, and no mapping frees them. */
  ghost predicate CallersOwn(frames: set<nat>, maps: seq<Mapping>, tables: set<nat>, free: set<nat>) {
    && (forall f :: f in frames ==> FrameHeld(f, tables, free))
    && (forall i: nat | i < |maps| :: FramesOf(maps[i]) !! frames)
  }

  /** Frames just taken out of the pool are the caller's. */
  lemma FreshFrames(frames: set<nat>, maps: seq<Mapping>, tables: set<nat>, f0: set<nat>, f1: set<nat>)
    requires OwnedOk(maps, tables, f0) && frames <= f0 && f1 == f0 - frames
    requires forall f :: f in tables ==> HeldFrame(f, f0)
    ensures CallersOwn(frames, maps, tables, f1)
  {
    hide FramesOf;
    forall f | f in frames
      ensures FrameHeld(f, tables, f1)
    {
      assert f * PAGE_SIZE / PAGE_SIZE == f;
    }
    forall i: nat | i < |maps|
      ensures FramesOf(maps[i]) !! frames
    {
      assert forall f :: f in FramesOf(maps[i]) ==> FrameHeld(f, tables, f0);
    }
  }

  /** Tables made meanwhile took frames from the pool, so frames outside it are still the caller's. */
  lemma CallersStillOwn(frames: set<nat>, maps: seq<Mapping>, t0: set<nat>, f0: set<nat>, t1: set<nat>, f1: set<nat>)
    requires CallersOwn(frames, maps, t0, f0) && Accounted(t0, f0, t1, f1)
    ensures CallersOwn(frames, maps, t1, f1)
  {
    hide FramesOf;
    forall f | f in frames
      ensures FrameHeld(f, t1, f1)
    {
      assert FrameHeld(f, t0, f0) && f * PAGE_SIZE / PAGE_SIZE == f;
    }
  }

  /** The frames are back in the pool, and whatever else left it became a table. */
  ghost predicate PoolBack(f0: set<nat>, frames: set<nat>, tables: set<nat>, free: set<nat>) {
    && frames <= free <= f0 + frames
    && (forall f :: f in f0 && f !in free ==> f * PAGE_SIZE in tables)
  }

  lemma PoolRestored(t0: set<nat>, f0: set<nat>, t1: set<nat>, f1: set<nat>, frames: set<nat>)
    requires Accounted(t0, f0, t1, f1)
    ensures PoolBack(f0, frames, t1, f1 + frames)
  {
  }

  lemma RecordedIsPlain(t: Tables, s: Shape, blocked: set<Node>, base: VPage -> Entry, maps: seq<Mapping>, idx: nat)
    requires Refines(t, s, blocked, base, maps) && idx < |maps|
    ensures PlainRange(blocked, maps[idx].virt, maps[idx].pages)
  {
    hide PageOf, Leaf;
    forall k: nat | k < maps[idx].pages ensures Plain(blocked, NthPage(maps[idx].virt, k)) {
      assert PageRecorded(t, s, blocked, base, maps[idx], k);
    }
  }

  /** `after` is `before` without its first mapping at `virt`, which is at index `idx`. */
  ghost predicate DroppedAt(before: seq<Mapping>, idx: nat, virt: U64, after: seq<Mapping>) {
    && idx < |before| && before[idx].virt == virt
    && (forall i: nat | i < idx :: before[i].virt != virt)
    && after == RemoveAt(before, idx)
  }

  /** The frames of a dropped mapping belong to nobody else. */
  lemma DroppedFramesAreFree(maps: seq<Mapping>, idx: nat, tables: set<nat>, free: set<nat>)
    requires OwnedOk(maps, tables, free) && idx < |maps|
    ensures CallersOwn(FramesOf(maps[idx]), RemoveAt(maps, idx), tables, free)
  {
    hide FramesOf;
    var rest := RemoveAt(maps, idx);
    forall i: nat | i < |rest|
      ensures FramesOf(rest[i]) !! FramesOf(maps[idx])
    {
      var o := if i < idx then i else i + 1;
      assert rest[i] == maps[o];
    }
  }

  /** What mapping a range answers: its refusal, or what the state of the tables and the free pages decide. */
  ghost function MapAnswer(refusal: Option<VmmError>, tables: Tables, shape: Shape, free: nat, virt: nat, pages: nat)
    : Result<(), VmmError>
  {
    if refusal.Some? then Err(refusal.value) else MapOutcome(tables, shape, free, virt, pages)
  }

  /** A refusal of `map` for aligned frames of a range that does not overflow is neither of the two early errors. */
  lemma LateRefusal(maps: seq<Mapping>, virt: U64, phys: U64, pages: nat, flags: set<VmmFlag>, owner: string)
    requires pages > 0 && RangeEnd(virt, pages).Some? && phys % PAGE_SIZE == 0
    ensures var refusal := MapRefusal(true, maps, virt, phys, pages, flags, owner);
            && refusal == MapRefusal(true, maps, virt, 0, pages, flags, owner)
            && refusal !in {Some(ZeroPages), Some(PhysicalAllocationFailed), Some(NotInitialized), Some(RangeOverflow)}
  {
  }

  lemma NotEarly(refusal: Option<VmmError>, tables: Tables, shape: Shape, free: nat, virt: nat, pages: nat)
    requires refusal !in {Some(ZeroPages), Some(PhysicalAllocationFailed), Some(NotInitialized), Some(RangeOverflow)}
    ensures var r := MapAnswer(refusal, tables, shape, free, virt, pages);
            r.Err? ==> r.error !in {ZeroPages, PhysicalAllocationFailed, NotInitialized, RangeOverflow}
  {
  }

  /** Frames taken from the pool that hold no table are not back. */
  lemma LostFrames(f0: set<nat>, phys: U64, pages: nat, maps: seq<Mapping>, tables: set<nat>, free: set<nat>)
    requires pages > 0 && CallersOwn(Run(phys / PAGE_SIZE, pages), maps, tables, free)
    requires Run(phys / PAGE_SIZE, pages) <= f0
    ensures !PoolBack(f0, {}, tables, free)
  {
    var f := phys / PAGE_SIZE;
    assert Between(f, f, f + pages);
    assert f in Run(f, pages) && FrameHeld(f, tables, free);
  }

  lemma ReleasesWholeRun(phys: U64, pages: nat, trackedPages: nat)
    requires phys % PAGE_SIZE == 0 && Run(phys / PAGE_SIZE, pages) <= Span(1, trackedPages)
    ensures Releasable(phys, pages, trackedPages) == Run(phys / PAGE_SIZE, pages)
  {
  }

  lemma PoolWhole(f0: set<nat>, frames: set<nat>, tables: set<nat>, free: set<nat>)
    requires frames <= f0 && PoolBack(f0 - frames, frames, tables, free)
    ensures PoolBack(f0, {}, tables, free)
  {
  }

  class Vmm {
    const hw: Mmu
    ghost const base: VPage -> Entry    // the entries of the tables taken over at start-up
    var mappings: seq<Mapping>
    var nextKernelVirt: U64
    var initialized: bool

    /** The recorded list refines the walk, and the frames it owns are safe to free. */
    ghost predicate Valid()
      reads this, hw, hw.pmm, hw.pmm.bits, hw.pmm.bits.words
    {
      && hw.Valid()
      && Refines(hw.tables, hw.shape, hw.blocked, base, mappings)
      && OwnedOk(mappings, hw.tables.Keys, hw.pmm.Free())
      && (forall m :: m in mappings ==> RangeOk(m))
      && nextKernelVirt >= KERNEL_VIRT_BASE
    }

    constructor (hw: Mmu)
      requires hw.Valid()
      ensures Valid() && this.hw == hw && mappings == [] && !initialized
      ensures forall p: VPage | p.Ok() :: base(p) == hw.LeafAt(p)
    {
      this.hw := hw;
      var tables, shape := hw.tables, hw.shape;
      this.base := (p: VPage) => if p.Ok() then Leaf(tables, shape, p) else EMPTY;
      mappings, nextKernelVirt, initialized := [], KERNEL_VIRT_BASE, false;
    }

    method Init()
      requires Valid()
      modifies this
      ensures Valid() && initialized && mappings == old(mappings)
      ensures nextKernelVirt == if old(initialized) then old(nextKernelVirt) else KERNEL_VIRT_BASE
    {
      if initialized { return; }
      initialized, nextKernelVirt := true, KERNEL_VIRT_BASE;
    }

    method FindOverlap(start: nat, end: nat) returns (found: bool)
      ensures found == OverlapsAny(mappings, start, end)
    {
      for i := 0 to |mappings|
        invariant forall j: nat | j < i :: !RangesOverlap(start, end, mappings[j].virt, MappingEnd(mappings[j]))
      {
        if RangesOverlap(start, end, mappings[i].virt, MappingEnd(mappings[i])) { return true; }
      }
      return false;
    }

    /**
     `map`: records and maps the whole range, or fails and leaves every page's translation and the
     list as they were, wherever the failure happened.
     */
    method Map(virt: U64, phys: U64, pages: nat, flags: set<VmmFlag>, owner: string) returns (r: Result<(), VmmError>)
      requires Valid()
      requires RangeEnd(virt, pages).Some? ==> PlainRange(hw.blocked, virt, pages)
      modifies this`mappings, hw`tables, hw`shape, hw.pmm`freePages, hw.pmm`nextHint, hw.pmm.bits, hw.pmm.bits.words
      ensures Valid() && Accounted(old(hw.tables.Keys), old(hw.pmm.Free()), hw.tables.Keys, hw.pmm.Free())
      ensures r.Ok? ==> mappings == old(mappings) + [Mapping(virt, phys, pages, flags, owner, false)]
      ensures r.Ok? ==> NoneTaken(old(hw.tables), old(hw.shape), virt, pages)
      ensures r.Err? ==> mappings == old(mappings) && SameLeaves(old(hw.tables), old(hw.shape), hw.tables, hw.shape)
      ensures var refusal := MapRefusal(initialized, old(mappings), virt, phys, pages, flags, owner);
              && r == MapAnswer(refusal, old(hw.tables), old(hw.shape), old(hw.pmm.freePages), virt, pages)
              && (refusal.Some? ==> hw.pmm.Free() == old(hw.pmm.Free()))
      ensures r == Err(OutOfTables) ==> hw.pmm.Free() == {}
      ensures AllCanonical(old(mappings)) && (FUser in flags ==> CanonicalSpan(virt, pages)) ==> AllCanonical(mappings)
    {
      hide Mmu.Valid, Refines, OwnedOk, PageOf, Leaf, PagesWritten, PlainRange, MapOutcome, NoneTaken, Accounted, SameLeaves;
      SameLeavesRefl(hw.tables, hw.shape);
      AccountedRefl(hw.tables.Keys, hw.pmm.Free());
      if pages == 0 { return Err(ZeroPages); }
      if owner == "" { return Err(EmptyOwner); }
      if virt % PAGE_SIZE != 0 || phys % PAGE_SIZE != 0 { return Err(Unaligned); }
      var end := RangeEnd(virt, pages);
      if end.None? { return Err(RangeOverflow); }
      if !initialized { return Err(NotInitialized); }
      if FUser !in flags && virt < KERNEL_VIRT_BASE { return Err(KernelInLowHalf); }
      var overlap := FindOverlap(virt, end.value);
      if overlap { return Err(Overlap); }

      r := hw.MapPages(virt, phys, pages, flags);
      OwnedAccounted(mappings, old(hw.tables.Keys), old(hw.pmm.Free()), hw.tables.Keys, hw.pmm.Free());
      if r.Err? {
        RefinesTransfer(old(hw.tables), old(hw.shape), hw.tables, hw.shape, hw.blocked, base, mappings);
        return;
      }
      var m := Mapping(virt, phys, pages, flags, owner, false);
      RecordKeepsRefinement(old(hw.tables), old(hw.shape), hw.tables, hw.shape, hw.blocked, base, mappings, m);
      OwnedAppend(mappings, m, hw.tables.Keys, hw.pmm.Free());
      mappings := mappings + [m];
    }

    ghost predicate FramesAreCallers(phys: U64, pages: nat)
      reads this`mappings, hw`tables, hw.pmm.bits
    {
      CallersOwn(Run(phys / PAGE_SIZE, pages), mappings, hw.tables.Keys, hw.pmm.Free())
    }

    /** `map_owned`: like `map`, and the manager frees the frames when the mapping goes. */
    method MapOwned(virt: U64, phys: U64, pages: nat, flags: set<VmmFlag>, owner: string) returns (r: Result<(), VmmError>)
      requires Valid() && FramesAreCallers(phys, pages)
      requires RangeEnd(virt, pages).Some? ==> PlainRange(hw.blocked, virt, pages)
      modifies this`mappings, hw`tables, hw`shape, hw.pmm`freePages, hw.pmm`nextHint, hw.pmm.bits, hw.pmm.bits.words
      ensures Valid() && Accounted(old(hw.tables.Keys), old(hw.pmm.Free()), hw.tables.Keys, hw.pmm.Free())
      ensures r.Ok? ==> mappings == old(mappings) + [Mapping(virt, phys, pages, flags, owner, true)]
      ensures r.Err? ==> mappings == old(mappings) && SameLeaves(old(hw.tables), old(hw.shape), hw.tables, hw.shape)
      ensures var refusal := MapRefusal(initialized, old(mappings), virt, phys, pages, flags, owner);
              r == MapAnswer(refusal, old(hw.tables), old(hw.shape), old(hw.pmm.freePages), virt, pages)
      ensures r == Err(OutOfTables) ==> hw.pmm.Free() == {}
      ensures AllCanonical(old(mappings)) && (FUser in flags ==> CanonicalSpan(virt, pages)) ==> AllCanonical(mappings)
    {
      hide Mmu.Valid, Refines, PageOf, Leaf, PlainRange, SameLeaves, OverlapsAny, RangeEnd, MapAnswer, NoneTaken, Accounted, MapRefusal;
      ghost var before := mappings;
      r := Map(virt, phys, pages, flags, owner);
      if r.Err? { return; }
      var last := mappings[|mappings| - 1];
      if last.virt == virt && last.phys == phys && last.pages == pages {
        ghost var owned := last.(ownedPhysical := true);
        OwnershipIsBookkeeping(hw.tables, hw.shape, hw.blocked, base, before, last);
        OwnedPrefix(before, last, hw.tables.Keys, hw.pmm.Free());
        CallersStillOwn(FramesOf(owned), before, old(hw.tables.Keys), old(hw.pmm.Free()), hw.tables.Keys, hw.pmm.Free());
        OwnedAppend(before, owned, hw.tables.Keys, hw.pmm.Free());
        assert mappings[..|mappings| - 1] == before;
        assert last in mappings && RangeOk(owned);
        mappings := mappings[..|mappings| - 1] + [last.(ownedPhysical := true)];
      }
    }

    lemma OwnedPrefix(maps: seq<Mapping>, m: Mapping, tables: set<nat>, free: set<nat>)
      requires OwnedOk(maps + [m], tables, free)
      ensures OwnedOk(maps, tables, free)
    {
      hide FramesOf;
      forall i: nat | i < |maps| ensures (maps + [m])[i] == maps[i] {}
    }

    /** Reserves the next `pages` pages of kernel address space. */
    method ReserveRange(pages: nat) returns (r: Result<U64, VmmError>)
      requires Valid()
      modifies this`nextKernelVirt
      ensures Valid()
      ensures r == if !initialized then Err(NotInitialized)
                   else if RangeEnd(old(nextKernelVirt), pages).None? then Err(RangeOverflow)
                   else Ok(old(nextKernelVirt))
      ensures nextKernelVirt == if r.Ok? then old(nextKernelVirt) + pages * PAGE_SIZE else old(nextKernelVirt)
    {
      hide Mmu.Valid, Refines, OwnedOk, RangeOk;
      if !initialized { return Err(NotInitialized); }
      var start := nextKernelVirt;
      var end := RangeEnd(start, pages);
      if end.None? { return Err(RangeOverflow); }
      nextKernelVirt := end.value;
      return Ok(start);
    }

    /** The frames `alloc_and_map` asks for are there. */
    ghost predicate FramesThere(pages: nat)
      reads hw.pmm, hw.pmm.bits
    {
      pages > 0 && hw.pmm.initialized && !hw.pmm.NoFreeRun(pages, hw.pmm.trackedPages)
    }

    /** The next kernel addresses are there. */
    predicate RangeThere(pages: nat)
      reads this
    {
      initialized && RangeEnd(nextKernelVirt, pages).Some?
    }

    /**
     `alloc_and_map`: maps freshly allocated frames at the next kernel address. Frames that were taken come back
     after a failure exactly when the manager is started and the address range does not overflow; in that case
     the address range stays used up. The answer is decided by the state before the call.
     */
    method AllocAndMap(pages: nat, flags: set<VmmFlag>, owner: string)
      returns (r: Result<U64, VmmError>, ghost phys: U64)
      requires Valid()
      requires RangeEnd(nextKernelVirt, pages).Some? ==> PlainRange(hw.blocked, nextKernelVirt, pages)
      modifies this, hw`tables, hw`shape, hw.pmm`freePages, hw.pmm`nextHint, hw.pmm.bits, hw.pmm.bits.words
      ensures Valid() && initialized == old(initialized)
      ensures AllCanonical(old(mappings)) ==> AllCanonical(mappings)
      ensures r.Ok? ==>
                && mappings == old(mappings) + [Mapping(old(nextKernelVirt), phys, pages, flags, owner, true)]
                && phys % PAGE_SIZE == 0 && Run(phys / PAGE_SIZE, pages) <= old(hw.pmm.Free())
                && r.value == old(nextKernelVirt)
      ensures r.Err? ==> mappings == old(mappings) && SameLeaves(old(hw.tables), old(hw.shape), hw.tables, hw.shape)
      ensures pages == 0 <==> r == Err(ZeroPages)
      ensures r == Err(PhysicalAllocationFailed) <==> pages > 0 && !old(FramesThere(pages))
      ensures !old(FramesThere(pages)) ==> hw.pmm.Free() == old(hw.pmm.Free())
      ensures old(FramesThere(pages)) ==>
                && (r == Err(NotInitialized) <==> !old(initialized))
                && (r == Err(RangeOverflow) <==> old(initialized) && !old(RangeThere(pages)))
                && (r.Err? ==> (PoolBack(old(hw.pmm.Free()), {}, hw.tables.Keys, hw.pmm.Free()) <==> old(RangeThere(pages))))
      ensures nextKernelVirt == old(nextKernelVirt) + (if old(FramesThere(pages) && RangeThere(pages)) then pages * PAGE_SIZE else 0)
      ensures old(FramesThere(pages) && RangeThere(pages)) ==>
                && old(hw.pmm.freePages) >= pages
                && var refusal := MapRefusal(true, old(mappings), old(nextKernelVirt), 0, pages, flags, owner);
                   var answer := MapAnswer(refusal, old(hw.tables), old(hw.shape), old(hw.pmm.freePages) - pages, old(nextKernelVirt), pages);
                   (r.Ok? <==> answer.Ok?) && (r.Err? ==> answer == Err(r.error))
      ensures r == Err(OutOfTables) ==> hw.pmm.Free() == Run(phys / PAGE_SIZE, pages)
      ensures old(FramesThere(pages) && !RangeThere(pages)) ==>
                && Run(phys / PAGE_SIZE, pages) <= old(hw.pmm.Free())
                && hw.pmm.Free() == old(hw.pmm.Free()) - Run(phys / PAGE_SIZE, pages)
    {
      hide Vmm.Valid, SameLeaves, RangeEnd, Pmm.NoFreeRun, PlainRange, Vmm.FramesAreCallers, PoolBack, Run, Span, MapAnswer, MapRefusal, AllCanonical;
      SameLeavesRefl(hw.tables, hw.shape);
      phys := 0;
      if pages == 0 { return Err(ZeroPages), phys; }
      var taken := TakeFrames(pages);
      if taken.None? { return Err(PhysicalAllocationFailed), phys; }
      phys := taken.value;
      ghost var frames, f0 := Run(phys / PAGE_SIZE, pages), old(hw.pmm.Free());
      r := MapTaken(taken.value, pages, flags, owner, f0);
      if r.Err? && old(RangeThere(pages)) {
        PoolWhole(f0, frames, hw.tables.Keys, hw.pmm.Free());
      }
    }

    /** The rest of `alloc_and_map`, once the frames are allocated out of the pool `f0`. */
    method MapTaken(phys: U64, pages: nat, flags: set<VmmFlag>, owner: string, ghost f0: set<nat>) returns (r: Result<U64, VmmError>)
      requires Valid() && pages > 0 && phys % PAGE_SIZE == 0 && FramesAreCallers(phys, pages)
      requires hw.pmm.initialized && Run(phys / PAGE_SIZE, pages) <= Span(1, hw.pmm.trackedPages)
      requires RangeEnd(nextKernelVirt, pages).Some? ==> PlainRange(hw.blocked, nextKernelVirt, pages)
      requires Run(phys / PAGE_SIZE, pages) <= f0
      modifies this, hw`tables, hw`shape, hw.pmm`freePages, hw.pmm`nextHint, hw.pmm.bits, hw.pmm.bits.words
      ensures Valid() && initialized == old(initialized)
      ensures AllCanonical(old(mappings)) ==> AllCanonical(mappings)
      ensures r.Ok? ==>
                && mappings == old(mappings) + [Mapping(old(nextKernelVirt), phys, pages, flags, owner, true)]
                && r.value == old(nextKernelVirt)
      ensures r.Err? ==> mappings == old(mappings) && SameLeaves(old(hw.tables), old(hw.shape), hw.tables, hw.shape)
      ensures r == Err(NotInitialized) <==> !old(initialized)
      ensures r == Err(RangeOverflow) <==> old(initialized) && !old(RangeThere(pages))
      ensures r != Err(ZeroPages) && r != Err(PhysicalAllocationFailed)
      ensures nextKernelVirt == old(nextKernelVirt) + (if old(RangeThere(pages)) then pages * PAGE_SIZE else 0)
      ensures old(RangeThere(pages)) ==>
                var refusal := MapRefusal(true, old(mappings), old(nextKernelVirt), 0, pages, flags, owner);
                var answer := MapAnswer(refusal, old(hw.tables), old(hw.shape), old(hw.pmm.freePages), old(nextKernelVirt), pages);
                && (r.Ok? <==> answer.Ok?)
                && (r.Err? ==>
                      && answer == Err(r.error)
                      && PoolBack(old(hw.pmm.Free()), Run(phys / PAGE_SIZE, pages), hw.tables.Keys, hw.pmm.Free()))
      ensures r == Err(OutOfTables) ==> hw.pmm.Free() == Run(phys / PAGE_SIZE, pages)
      ensures !old(RangeThere(pages)) ==>
                hw.pmm.Free() == old(hw.pmm.Free()) && !PoolBack(f0, {}, hw.tables.Keys, hw.pmm.Free())
    {
      hide SameLeaves, PlainRange, Run, PoolBack, MapAnswer, MapRefusal, Mmu.Valid, Refines, OwnedOk, RangeOk, CallersOwn, AllCanonical;
      SameLeavesRefl(hw.tables, hw.shape);
      LostFrames(f0, phys, pages, mappings, hw.tables.Keys, hw.pmm.Free());
      ghost var first := nextKernelVirt;
      var virt := ReserveRange(pages);
      if virt.Err? { return Err(virt.error); }
      assert CanonicalSpan(first, pages);
      LateRefusal(mappings, first, phys, pages, flags, owner);
      var mapped := MapOrGiveBack(virt.value, phys, pages, flags, owner);
      if mapped.Err? { return Err(mapped.error); }
      return Ok(virt.value);
    }

    method MapOrGiveBack(virt: U64, phys: U64, pages: nat, flags: set<VmmFlag>, owner: string) returns (r: Result<(), VmmError>)
      requires Valid() && pages > 0 && phys % PAGE_SIZE == 0 && FramesAreCallers(phys, pages) && initialized
      requires hw.pmm.initialized && Run(phys / PAGE_SIZE, pages) <= Span(1, hw.pmm.trackedPages)
      requires RangeEnd(virt, pages).Some? && PlainRange(hw.blocked, virt, pages) && CanonicalSpan(virt, pages)
      modifies this`mappings, hw`tables, hw`shape, hw.pmm`freePages, hw.pmm`nextHint, hw.pmm.bits, hw.pmm.bits.words
      ensures Valid()
      ensures AllCanonical(old(mappings)) ==> AllCanonical(mappings)
      ensures r.Ok? ==> mappings == old(mappings) + [Mapping(virt, phys, pages, flags, owner, true)]
      ensures r.Err? ==>
                && r.error !in {ZeroPages, PhysicalAllocationFailed, NotInitialized, RangeOverflow}
                && mappings == old(mappings) && SameLeaves(old(hw.tables), old(hw.shape), hw.tables, hw.shape)
                && PoolBack(old(hw.pmm.Free()), Run(phys / PAGE_SIZE, pages), hw.tables.Keys, hw.pmm.Free())
      ensures var refusal := MapRefusal(true, old(mappings), virt, phys, pages, flags, owner);
              r == MapAnswer(refusal, old(hw.tables), old(hw.shape), old(hw.pmm.freePages), virt, pages)
      ensures r == Err(OutOfTables) ==> hw.pmm.Free() == Run(phys / PAGE_SIZE, pages)
    {
      hide Vmm.Valid, SameLeaves, PlainRange, Run, Releasable, CallersOwn, Accounted, PoolBack, MapRefusal, RangeEnd, MapAnswer, CanonicalSpan, AllCanonical;
      ghost var frames, t0, f0 := Run(phys / PAGE_SIZE, pages), hw.tables.Keys, hw.pmm.Free();
      ghost var refusal := MapRefusal(true, mappings, virt, phys, pages, flags, owner);
      ReleasesWholeRun(phys, pages, hw.pmm.trackedPages);
      LateRefusal(mappings, virt, phys, pages, flags, owner);
      r := MapOwned(virt, phys, pages, flags, owner);
      if r.Err? {
        NotEarly(refusal, old(hw.tables), old(hw.shape), old(hw.pmm.freePages), virt, pages);
        ReturnFrames(phys, pages, t0, f0);
      }
    }

    /** Gives frames back that were the caller's in an earlier state (t0, f0), from which tables may have been made. */
    method ReturnFrames(phys: U64, pages: nat, ghost t0: set<nat>, ghost f0: set<nat>)
      requires Valid() && hw.pmm.initialized
      requires Releasable(phys, pages, hw.pmm.trackedPages) == Run(phys / PAGE_SIZE, pages)
      requires CallersOwn(Run(phys / PAGE_SIZE, pages), mappings, t0, f0)
      requires Accounted(t0, f0, hw.tables.Keys, hw.pmm.Free())
      modifies hw.pmm`freePages, hw.pmm`nextHint, hw.pmm.bits, hw.pmm.bits.words
      ensures Valid() && PoolBack(f0, Run(phys / PAGE_SIZE, pages), hw.tables.Keys, hw.pmm.Free())
      ensures hw.pmm.Free() == old(hw.pmm.Free()) + Run(phys / PAGE_SIZE, pages)
    {
      ghost var frames, f1 := Run(phys / PAGE_SIZE, pages), hw.pmm.Free();
      CallersStillOwn(frames, mappings, t0, f0, hw.tables.Keys, f1);
      hide Vmm.Valid, Run, Releasable, CallersOwn, Accounted, PoolBack;
      GiveBack(phys, pages);
      PoolRestored(t0, f0, hw.tables.Keys, f1, frames);
    }

    /** Allocates frames for a mapping: they were free, and nothing else refers to them. */
    method TakeFrames(pages: nat) returns (r: Option<U64>)
      requires Valid() && pages > 0
      modifies hw.pmm`freePages, hw.pmm`nextHint, hw.pmm.bits, hw.pmm.bits.words
      ensures Valid()
      ensures r.None? <==> !hw.pmm.initialized || old(hw.pmm.NoFreeRun(pages, hw.pmm.trackedPages))
      ensures r.None? ==> hw.pmm.Free() == old(hw.pmm.Free())
      ensures r.Some? ==>
                && r.value % PAGE_SIZE == 0 && FramesAreCallers(r.value, pages)
                && Run(r.value / PAGE_SIZE, pages) <= old(hw.pmm.Free()) * Span(1, hw.pmm.trackedPages)
                && hw.pmm.Free() == old(hw.pmm.Free()) - Run(r.value / PAGE_SIZE, pages)
                && hw.pmm.freePages == old(hw.pmm.freePages) - pages
    {
      hide WellFormed, Refines, RangeOk;
      r := hw.pmm.AllocPages(pages);
      hw.PoolChanged({});
      OwnedStays(mappings, hw.tables.Keys, old(hw.pmm.Free()), hw.tables.Keys, hw.pmm.Free());
      if r.Some? {
        FreshFrames(Run(r.value / PAGE_SIZE, pages), mappings, hw.tables.Keys, old(hw.pmm.Free()), hw.pmm.Free());
      }
    }

    /** `free_pages_range` on frames that belong to the caller. */
    method GiveBack(phys: U64, pages: nat)
      requires Valid() && FramesAreCallers(phys, pages)
      modifies hw.pmm`freePages, hw.pmm`nextHint, hw.pmm.bits, hw.pmm.bits.words
      ensures Valid()
      ensures hw.pmm.Free() == old(hw.pmm.Free())
                + (if hw.pmm.initialized then Releasable(phys, pages, hw.pmm.trackedPages) else {})
    {
      hide WellFormed, Refines, RangeOk;
      var _ := hw.pmm.FreePagesRange(phys, pages);
      hw.PoolChanged(Run(phys / PAGE_SIZE, pages));
      forall i: nat, f | i < |mappings| && f in FramesOf(mappings[i])
        ensures FrameHeld(f, hw.tables.Keys, hw.pmm.Free())
      {
        assert FrameHeld(f, old(hw.tables.Keys), old(hw.pmm.Free()));
      }
    }

    /** `map_physical_anywhere`: maps at the next kernel address, and gives the address space back on failure. */
    method MapPhysicalAnywhere(phys: U64, pages: nat, flags: set<VmmFlag>, owner: string) returns (r: Result<U64, VmmError>)
      requires Valid()
      requires RangeEnd(nextKernelVirt, pages).Some? ==> PlainRange(hw.blocked, nextKernelVirt, pages)
      modifies this, hw`tables, hw`shape, hw.pmm`freePages, hw.pmm`nextHint, hw.pmm.bits, hw.pmm.bits.words
      ensures Valid() && initialized == old(initialized)
      ensures r.Ok? ==>
                && mappings == old(mappings) + [Mapping(old(nextKernelVirt), phys, pages, flags, owner, false)]
                && r.value == old(nextKernelVirt) && nextKernelVirt == old(nextKernelVirt) + pages * PAGE_SIZE
      ensures r.Err? ==>
                && mappings == old(mappings) && nextKernelVirt == old(nextKernelVirt)
                && SameLeaves(old(hw.tables), old(hw.shape), hw.tables, hw.shape)
      ensures AllCanonical(old(mappings)) ==> AllCanonical(mappings)
      ensures var refusal := AnywhereRefusal(initialized, old(mappings), old(nextKernelVirt), phys, pages, flags, owner);
              var answer := MapAnswer(refusal, old(hw.tables), old(hw.shape), old(hw.pmm.freePages), old(nextKernelVirt), pages);
              (r.Ok? <==> answer.Ok?) && (r.Err? ==> answer == Err(r.error))
      ensures r == Err(OutOfTables) ==> hw.pmm.Free() == {}
    {
      hide SameLeaves, PlainRange, OverlapsAny, Accounted, MapOutcome, MapRefusal, Mmu.Valid, Refines, OwnedOk, RangeOk, AllCanonical;
      SameLeavesRefl(hw.tables, hw.shape);
      ghost var first := nextKernelVirt;
      if pages == 0 { return Err(ZeroPages); }
      if phys % PAGE_SIZE != 0 { return Err(Unaligned); }
      var virt := ReserveRange(pages);
      if virt.Err? { return Err(virt.error); }
      assert CanonicalSpan(first, pages);
      var mapped := Map(virt.value, phys, pages, flags, owner);
      if mapped.Err? {
        if nextKernelVirt >= SatAdd(virt.value, pages * PAGE_SIZE) { ReturnRange(virt.value); }
        return Err(mapped.error);
      }
      return Ok(virt.value);
    }

    method ReturnRange(virt: U64)
      requires Valid() && virt >= KERNEL_VIRT_BASE
      modifies this`nextKernelVirt
      ensures Valid() && nextKernelVirt == virt
    {
      hide Mmu.Valid, Refines, OwnedOk, RangeOk;
      nextKernelVirt := virt;
    }

    method FindMapping(virt: U64) returns (r: Option<nat>)
      ensures r.None? ==> forall m :: m in mappings ==> m.virt != virt
      ensures r.Some? ==> r.value < |mappings| && mappings[r.value].virt == virt
                          && forall i: nat | i < r.value :: mappings[i].virt != virt
    {
      for i := 0 to |mappings|
        invariant forall j: nat | j < i :: mappings[j].virt != virt
      {
        if mappings[i].virt == virt { return Some(i); }
      }
      return None;
    }

    /** `unmap`: drops the record and its pages, and frees the frames the mapping owned. */
    method Unmap(virt: U64) returns (r: Result<(), VmmError>)
      requires Valid()
      modifies this`mappings, hw`tables, hw`shape, hw.pmm`freePages, hw.pmm`nextHint, hw.pmm.bits, hw.pmm.bits.words
      ensures Valid()
      ensures r.Err? ==> mappings == old(mappings) && hw.tables == old(hw.tables) && hw.pmm.Free() == old(hw.pmm.Free())
      ensures r == if virt % PAGE_SIZE != 0 then Err(Unaligned)
                   else if !initialized then Err(NotInitialized)
                   else if forall m :: m in old(mappings) ==> m.virt != virt then Err(MappingNotFound)
                   else Ok(())
      ensures AllCanonical(old(mappings)) ==> AllCanonical(mappings)
      ensures r.Ok? ==> exists idx: nat :: DroppedAt(old(mappings), idx, virt, mappings)
                          && hw.pmm.Free() == old(hw.pmm.Free()) + Given(old(mappings)[idx])
    {
      hide Mmu.Valid, Refines, OwnedOk, RangeOk, PageOf, Leaf, PlainRange, PagesCleared;
      if virt % PAGE_SIZE != 0 { return Err(Unaligned); }
      if !initialized { return Err(NotInitialized); }
      var idx := FindMapping(virt);
      if idx.None? { return Err(MappingNotFound); }
      var m := mappings[idx.value];
      Drop(idx.value);
      assert DroppedAt(old(mappings), idx.value, virt, mappings);
      return Ok(());
    }

    /** The frames an unmapped mapping returns to the pool. */
    ghost function Given(m: Mapping): set<nat>
      reads hw.pmm
    {
      if m.ownedPhysical && hw.pmm.initialized then Releasable(m.phys, m.pages, hw.pmm.trackedPages) else {}
    }

    method Drop(idx: nat)
      requires Valid() && idx < |mappings|
      modifies this`mappings, hw`tables, hw`shape, hw.pmm`freePages, hw.pmm`nextHint, hw.pmm.bits, hw.pmm.bits.words
      ensures Valid() && mappings == RemoveAt(old(mappings), idx)
      ensures hw.pmm.Free() == old(hw.pmm.Free()) + Given(old(mappings)[idx])
    {
      var m := mappings[idx];
      RecordedIsPlain(hw.tables, hw.shape, hw.blocked, base, mappings, idx);
      hide Mmu.Valid, Refines, OwnedOk, RangeOk, PageOf, Leaf, PlainRange, PagesCleared, Run;
      mappings := mappings[..idx] + mappings[idx + 1..];
      hw.UnmapPages(m.virt, m.pages);
      DropKeepsRefinement(old(hw.tables), old(hw.shape), hw.tables, hw.shape, hw.blocked, base, old(mappings), idx);
      OwnedDrop(old(mappings), idx, hw.tables.Keys, hw.pmm.Free(), hw.pmm.Free());
      if m.ownedPhysical {
        DroppedFramesAreFree(old(mappings), idx, hw.tables.Keys, hw.pmm.Free());
        GiveBack(m.phys, m.pages);
      }
    }

    /** `translate`: the recorded target for a recorded page, the base tables' answer for any other. */
    method Translate(virt: U64) returns (r: Option<nat>)
      requires Valid() && Plain(hw.blocked, PageOf(virt))
      ensures !initialized ==> r == None
      ensures initialized ==> forall i: nat, k: nat | i < |mappings| && k < mappings[i].pages
                                && NthPage(mappings[i].virt, k) == PageOf(virt)
                                :: r == Reached(NthEntry(mappings[i].phys, k, mappings[i].flags), Offset(virt))
      ensures initialized && !Covered(mappings, PageOf(virt)) ==> r == Reached(base(PageOf(virt)), Offset(virt))
      ensures initialized ==> forall m :: m in mappings && InRange(m, virt) ==>
                (r == Some(m.phys + (virt - m.virt)) <==> FrameOf(m, virt) < PHYS_LIMIT)
      ensures initialized && Canonical(virt) && AllCanonical(mappings) && (forall m :: m in mappings ==> !InRange(m, virt)) ==>
                r == Reached(base(PageOf(virt)), Offset(virt))
    {
      AddressSpace(hw.tables, hw.shape, hw.blocked, base, mappings, virt);
      hide PageOf, Leaf, Mmu.Valid, OwnedOk, RangeOk, AllCanonical, Canonical, FrameOf;
      if !initialized { return None; }
      r := hw.TranslateHw(virt);
      forall i: nat, k: nat | i < |mappings| && k < mappings[i].pages && NthPage(mappings[i].virt, k) == PageOf(virt)
        ensures r == Reached(NthEntry(mappings[i].phys, k, mappings[i].flags), Offset(virt))
      {
        assert PageRecorded(hw.tables, hw.shape, hw.blocked, base, mappings[i], k);
      }
    }
  }

  /** The root table alone, with all entries empty, is well formed. */
  lemma EmptyTablesWellFormed(root: nat)
    ensures WellFormed(root, map[root := CLEARED], map[Root := root], {})
  {
    var tables: Tables, shape: Shape := map[root := CLEARED], map[Root := root];
    forall n, i: nat | n in shape && i < ENTRIES ensures SlotOk(tables, shape, {}, n, i) {
      assert CLEARED[i] == EMPTY;
    }
  }

  /** Page tables with just an empty root table, in a page that is not free. */
  method RootTable(pmm: Pmm, root: nat) returns (hw: Mmu)
    requires pmm.Valid() && root % PAGE_SIZE == 0 && root / PAGE_SIZE !in pmm.Free()
    ensures fresh(hw) && hw.Valid() && hw.pmm == pmm && hw.blocked == {} && hw.shape == map[Root := root]
  {
    EmptyTablesWellFormed(root);
    hide WellFormed, Pmm.Valid;
    hw := new Mmu(pmm, root, map[root := CLEARED], map[Root := root], {});
  }

  /** A manager over such tables. */
  method ManagerOver(pmm: Pmm, root: nat) returns (vmm: Vmm)
    requires pmm.Valid() && root % PAGE_SIZE == 0 && root / PAGE_SIZE !in pmm.Free()
    ensures fresh(vmm) && fresh(vmm.hw) && vmm.Valid() && vmm.hw.pmm == pmm && vmm.hw.blocked == {}
    ensures !vmm.initialized && vmm.mappings == []
  {
    hide Mmu.Valid, Refines, OwnedOk, Pmm.Valid, Leaf;
    var hw := RootTable(pmm, root);
    vmm := new Vmm(hw);
  }

  lemma OnlyRoot(shape: Shape, p: VPage)
    requires shape.Keys == {Root}
    ensures Missing(shape, p) == 3 && forall t: Tables, q: VPage | q.Ok() :: Leaf(t, shape, q) == EMPTY
  {
  }

  /** The path to the only mapped page is all there is, so unmapping the page drops all of it. */
  lemma OnlyPath(shape: Shape, p: VPage)
    requires shape.Keys == {Root} + PathTo(p)
    ensures Alone(shape, {}, p.Holder()) && Alone(shape, {}, Pd(p.l4, p.l3))
    ensures (shape - PathTo(p)).Keys == {Root}
  {
  }

  /**
   Trimming empty tables is meant to prevent unbounded growth, but their frames stay taken: with just the frames
   for its three tables a page can be mapped and unmapped, and then not be mapped again.
   */
  method TrimmedTablesAreLost() returns (first: Result<(), VmmError>, undone: Result<(), VmmError>, again: Result<(), VmmError>)
    ensures first.Ok? && undone.Ok? && again == Err(OutOfTables)
  {
    hide Mmu.Valid, Pmm.Valid, SameLeaves, Accounted, PageOf, Leaf, Alone, Missing, PathTo, MappedEntry;
    var pmm := FreshRun(1, 3);
    SpanMembers(1, 4);
    var hw := RootTable(pmm, 9 * PAGE_SIZE);
    ghost var p := PageOf(KERNEL_VIRT_BASE);
    OnlyRoot(hw.shape, p);
    first := hw.MapPageHw(KERNEL_VIRT_BASE, 0, {});
    OnlyPath(hw.shape, p);
    assert hw.OnlyPage(p);
    MappedIsPresent(0, {});
    undone := hw.UnmapPageHw(KERNEL_VIRT_BASE);
    OnlyRoot(hw.shape, p);
    again := hw.MapPageHw(KERNEL_VIRT_BASE, 0, {});
  }

  lemma MappedIsPresent(phys: nat, flags: set<VmmFlag>)
    ensures MappedEntry(phys, flags).IsPresent()
  {
  }

  lemma NothingLeft(free: set<nat>, first: nat)
    requires free == {1} && Run(first, 1) <= free
    ensures free - Run(first, 1) == {}
  {
    assert Between(first, first, first + 1) && first in Run(first, 1);
  }

  /** Asking a manager that was not started for the only free page takes the page and maps nothing. */
  method UnstartedManagerLosesPage() returns (r: Result<U64, VmmError>, free: nat, mappings: seq<Mapping>)
    ensures r == Err(NotInitialized) && free == 0 && mappings == []
  {
    hide Mmu.Valid, Vmm.Valid, Pmm.Valid, PoolBack, MapAnswer, MapRefusal, SameLeaves, AllCanonical, PageOf, Run, RangeEnd;
    var pmm := OnePage(1);
    assert !pmm.NoFreeRun(1, 2) by { SinglePage(); assert pmm.RunFree(1, 1); }
    var vmm := ManagerOver(pmm, 2 * PAGE_SIZE);
    assert PlainRange(vmm.hw.blocked, vmm.nextKernelVirt, 1);
    ghost var phys;
    r, phys := vmm.AllocAndMap(1, {}, "kernel");
    NothingLeft({1}, phys / PAGE_SIZE);
    CountIsSize(vmm);
    free, mappings := pmm.freePages, vmm.mappings;
  }

  lemma SinglePage()
    ensures Run(1, 1) == {1}
  {
  }

  lemma CountIsSize(vmm: Vmm)
    requires vmm.Valid()
    ensures vmm.hw.pmm.freePages == |vmm.hw.pmm.Free()|
  {
  }
}
