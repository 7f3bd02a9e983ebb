/**
 The hardware half of the virtual memory manager: mapping, unmapping and
 translating single pages in the page tables, and mapping a whole range with
 rollback on failure.
 */
module Paging {
  import opened Machine
  import opened PageTable
  import opened PhysMem

  datatype VmmFlag = FRead | FWrite | FExec | FUser | FGlobal | FDevice | FWriteCombine

  datatype VmmError =
    | ZeroPages | EmptyOwner | Unaligned | RangeOverflow | NotInitialized | KernelInLowHalf | Overlap
    | OutOfTables | AlreadyMapped | NotMapped | MappingNotFound | PhysicalAllocationFailed

  /** `nonleaf_flags`. */
  function NonLeafFlags(flags: set<VmmFlag>): set<Flag> {
    {Writable} + (if FUser in flags then {User} else {})
  }

  /** `leaf_flags`, with the memory type taken from the device and write-combining flags. */
  function LeafFlags(flags: set<VmmFlag>): set<Flag> {
    (if FWrite in flags then {Writable} else {})
    + (if FUser in flags then {User} else {})
    + (if FGlobal in flags then {Global} else {})
    + (if FDevice in flags then {Pcd, Pwt} else if FWriteCombine in flags then {Pwt} else {})
    + (if FExec in flags then {} else {NoExec})
  }

  /** The leaf entry that maps a page to `phys`. */
  function MappedEntry(phys: nat, flags: set<VmmFlag>): Entry { SetPage(EMPTY, phys, LeafFlags(flags)) }

  /** The address a walk that ends at `e` yields. */
  function Reached(e: Entry, offset: nat): Option<nat> {
    if e.IsPresent() then Some(e.addr + offset) else None
  }

  /** From one state to a later one, new tables came out of the pool, and whatever left the pool is a table. */
  ghost predicate Accounted(t0: set<nat>, f0: set<nat>, t1: set<nat>, f1: set<nat>) {
    && t0 <= t1 && f1 <= f0
    && (forall f :: f in t1 && f !in t0 ==> f / PAGE_SIZE in f0)
    && (forall f :: f in f0 && f !in f1 ==> f * PAGE_SIZE in t1)
  }

  /** How many of the three tables on the way to a page do not exist yet. */
  function Missing(shape: Shape, p: VPage): nat { MissingUpper(shape, p) + (if p.Holder() in shape then 0 else 1) }

  function MissingUpper(shape: Shape, p: VPage): nat {
    (if Pdpt(p.l4) in shape then 0 else 1) + (if Pd(p.l4, p.l3) in shape then 0 else 1)
  }

  /** The places of the three tables on the way to a page. */
  function PathTo(p: VPage): set<Node> { {Pdpt(p.l4)} + {Pd(p.l4, p.l3)} + {p.Holder()} }

  lemma MissingIsSize(shape: Shape, p: VPage)
    ensures Missing(shape, p) == |PathTo(p) - shape.Keys|
  {
    var a, b, c, s := Pdpt(p.l4), Pd(p.l4, p.l3), p.Holder(), shape.Keys;
    JustOne(a, s);
    OneMore({a}, b, s);
    OneMore({a} + {b}, c, s);
  }

  lemma JustOne<T>(x: T, s: set<T>)
    ensures |{x} - s| == if x in s then 0 else 1
  {
    assert {x} - s == if x in s then {} else {x};
  }

  lemma OneMore<T>(a: set<T>, x: T, s: set<T>)
    requires x !in a
    ensures |(a + {x}) - s| == |a - s| + (if x in s then 0 else 1)
  {
    assert (a + {x}) - s == if x in s then a - s else (a - s) + {x};
  }

  /** The tables on the way to a page were added, and nothing else. */
  ghost predicate GrewBy(s0: Shape, s1: Shape, p: VPage) { s1.Keys == s0.Keys + PathTo(p) }

  lemma GrewByPath(s0: Shape, s1: Shape, s2: Shape, p: VPage)
    requires forall m :: m in s0 ==> m in s1
    requires forall m :: m in s1 ==> m in s0 || m == Pdpt(p.l4) || m == Pd(p.l4, p.l3)
    requires forall m :: m in s1 ==> m in s2
    requires forall m :: m in s2 ==> m in s1 || m == p.Holder()
    requires Pdpt(p.l4) in s1 && Pd(p.l4, p.l3) in s1 && p.Holder() in s2
    ensures GrewBy(s0, s2, p)
  {
  }

  lemma AccountedTrans(t0: set<nat>, f0: set<nat>, t1: set<nat>, f1: set<nat>, t2: set<nat>, f2: set<nat>)
    requires Accounted(t0, f0, t1, f1) && Accounted(t1, f1, t2, f2)
    ensures Accounted(t0, f0, t2, f2)
  {
  }

  lemma AccountedRefl(t: set<nat>, f: set<nat>)
    ensures Accounted(t, f, t, f)
  {
  }

  // ---------------------------------------------------------------- ranges of pages

  /** The `k`-th page of a range that starts at `virt`. */
  function NthPage(virt: nat, k: nat): VPage { PageOf(virt + k * PAGE_SIZE) }

  /** The entry that maps the `k`-th page of a range; the physical address saturates like the kernel's. */
  function NthEntry(phys: nat, k: nat, flags: set<VmmFlag>): Entry {
    MappedEntry(SatAdd(phys, k * PAGE_SIZE), flags)
  }

  ghost predicate InPages(virt: nat, n: nat, p: VPage) {
    exists k: nat :: k < n && NthPage(virt, k) == p
  }

  ghost predicate PlainRange(blocked: set<Node>, virt: nat, n: nat) {
    forall k: nat | k < n :: Plain(blocked, NthPage(virt, k))
  }

  /** The first `n` pages of a range, all distinct and unmapped before, are now mapped; no other page changed. */
  ghost predicate PagesWritten(t0: Tables, s0: Shape, t1: Tables, s1: Shape,
                               virt: nat, phys: nat, n: nat, flags: set<VmmFlag>) {
    && (forall k: nat | k < n :: Leaf(t1, s1, NthPage(virt, k)) == NthEntry(phys, k, flags))
    && (forall k: nat | k < n :: Leaf(t0, s0, NthPage(virt, k)) == EMPTY)
    && (forall j: nat, k: nat | j < k < n :: NthPage(virt, j) != NthPage(virt, k))
    && (forall p: VPage | p.Ok() && !InPages(virt, n, p) :: Leaf(t1, s1, p) == Leaf(t0, s0, p))
  }

  /** The `k`-th page of a range cannot be mapped: it is mapped already, or is an earlier page of the range again. */
  ghost predicate Taken(tables: Tables, shape: Shape, virt: nat, k: nat) {
    Leaf(tables, shape, NthPage(virt, k)).IsPresent() || InPages(virt, k, NthPage(virt, k))
  }

  /** The pages of a range are now unmapped; no other page changed. */
  ghost predicate PagesCleared(t0: Tables, s0: Shape, t1: Tables, s1: Shape, virt: nat, n: nat) {
    forall p: VPage | p.Ok() :: Leaf(t1, s1, p) == if InPages(virt, n, p) then EMPTY else Leaf(t0, s0, p)
  }

  lemma ClearedStep(t0: Tables, s0: Shape, t1: Tables, s1: Shape, t2: Tables, s2: Shape, virt: nat, k: nat)
    requires PagesCleared(t0, s0, t1, s1, virt, k)
    requires LeafWritten(t1, s1, t2, s2, NthPage(virt, k), EMPTY)
    ensures PagesCleared(t0, s0, t2, s2, virt, k + 1)
  {
    hide PageOf, Leaf;
    forall p: VPage ensures InPages(virt, k + 1, p) <==> InPages(virt, k, p) || p == NthPage(virt, k) {
      assert p == NthPage(virt, k) ==> InPages(virt, k + 1, p);
    }
  }

  lemma WrittenStep(t0: Tables, s0: Shape, t1: Tables, s1: Shape, t2: Tables, s2: Shape,
                    virt: nat, phys: nat, k: nat, flags: set<VmmFlag>)
    requires PagesWritten(t0, s0, t1, s1, virt, phys, k, flags)
    requires Leaf(t1, s1, NthPage(virt, k)) == EMPTY
    requires LeafWritten(t1, s1, t2, s2, NthPage(virt, k), NthEntry(phys, k, flags))
    ensures PagesWritten(t0, s0, t2, s2, virt, phys, k + 1, flags)
  {
    hide PageOf, Leaf;
    forall p: VPage ensures InPages(virt, k + 1, p) <==> InPages(virt, k, p) || p == NthPage(virt, k) {
      assert p == NthPage(virt, k) ==> InPages(virt, k + 1, p);
    }
    assert !InPages(virt, k, NthPage(virt, k));
  }

  lemma WrittenNone(t: Tables, s: Shape, virt: nat, phys: nat, flags: set<VmmFlag>)
    ensures PagesWritten(t, s, t, s, virt, phys, 0, flags)
  {
  }

  lemma WrittenTransfer(t0: Tables, s0: Shape, t1: Tables, s1: Shape, t2: Tables, s2: Shape,
                        virt: nat, phys: nat, k: nat, flags: set<VmmFlag>)
    requires PagesWritten(t0, s0, t1, s1, virt, phys, k, flags) && SameLeaves(t1, s1, t2, s2)
    ensures PagesWritten(t0, s0, t2, s2, virt, phys, k, flags)
  {
  }

  lemma TakenWhen(t0: Tables, s0: Shape, t1: Tables, s1: Shape, virt: nat, phys: nat, k: nat, flags: set<VmmFlag>)
    requires PagesWritten(t0, s0, t1, s1, virt, phys, k, flags)
    requires Leaf(t1, s1, NthPage(virt, k)).IsPresent()
    ensures Taken(t0, s0, virt, k)
  {
  }

  lemma WrittenWereFree(t0: Tables, s0: Shape, t1: Tables, s1: Shape, virt: nat, phys: nat, n: nat, flags: set<VmmFlag>)
    requires PagesWritten(t0, s0, t1, s1, virt, phys, n, flags)
    ensures forall k: nat | k < n :: !Taken(t0, s0, virt, k)
  {
  }

  lemma ClearUndoesWrite(t0: Tables, s0: Shape, t1: Tables, s1: Shape, t2: Tables, s2: Shape,
                         virt: nat, phys: nat, n: nat, flags: set<VmmFlag>)
    requires PagesWritten(t0, s0, t1, s1, virt, phys, n, flags)
    requires PagesCleared(t1, s1, t2, s2, virt, n)
    ensures SameLeaves(t0, s0, t2, s2)
  {
  }

  // ---------------------------------------------------------------- what decides a mapping loop

  /** The places of all tables on the way to the first `n` pages of a range. */
  ghost function PathsTo(virt: nat, n: nat): set<Node> {
    if n == 0 then {} else PathsTo(virt, n - 1) + PathTo(NthPage(virt, n - 1))
  }

  /** How many different tables the first `n` pages of a range need that do not exist yet. */
  ghost function TablesNeeded(places: set<Node>, virt: nat, n: nat): nat { |PathsTo(virt, n) - places| }

  ghost predicate NoneTaken(tables: Tables, shape: Shape, virt: nat, n: nat) {
    forall k: nat | k < n :: !Taken(tables, shape, virt, k)
  }

  /** Page `k` is the first that is taken, and there are frames for the tables of all pages before it. */
  ghost predicate StopsAt(tables: Tables, shape: Shape, free: nat, virt: nat, k: nat) {
    Taken(tables, shape, virt, k) && NoneTaken(tables, shape, virt, k) && TablesNeeded(shape.Keys, virt, k) <= free
  }

  /** What the mapping loop answers, from the state before it and the number of free pages. */
  ghost function MapOutcome(tables: Tables, shape: Shape, free: nat, virt: nat, pages: nat): Result<(), VmmError> {
    if NoneTaken(tables, shape, virt, pages) && TablesNeeded(shape.Keys, virt, pages) <= free then Ok(())
    else if exists k: nat :: k < pages && StopsAt(tables, shape, free, virt, k) then Err(AlreadyMapped)
    else Err(OutOfTables)
  }

  lemma {:induction false} PathsGrow(virt: nat, m: nat, n: nat)
    requires m <= n
    ensures PathsTo(virt, m) <= PathsTo(virt, n)
  {
    if m < n { PathsGrow(virt, m, n - 1); }
  }

  lemma NeededGrows(places: set<Node>, virt: nat, m: nat, n: nat)
    requires m <= n
    ensures TablesNeeded(places, virt, m) <= TablesNeeded(places, virt, n)
  {
    PathsGrow(virt, m, n);
    hide PathsTo;
    SubsetSize(PathsTo(virt, m) - places, PathsTo(virt, n) - places);
  }

  lemma UnionSize<T>(a: set<T>, b: set<T>, s: set<T>)
    ensures |(a + b) - s| == |a - s| + |b - (s + a)|
  {
    assert (a + b) - s == (a - s) + (b - (s + a));
  }

  /** The next page needs as many more tables as are missing on its path. */
  lemma NeededNext(places: set<Node>, shape: Shape, virt: nat, n: nat)
    requires shape.Keys == places + PathsTo(virt, n)
    ensures TablesNeeded(places, virt, n + 1) == TablesNeeded(places, virt, n) + Missing(shape, NthPage(virt, n))
  {
    hide PathTo, NthPage, Missing;
    var a, b := PathsTo(virt, n), PathTo(NthPage(virt, n));
    MissingIsSize(shape, NthPage(virt, n));
    UnionSize(a, b, places);
  }

  /** Running out of frames at page `m`, with no page up to it taken, is the outcome. */
  lemma RanOut(tables: Tables, shape: Shape, free: nat, virt: nat, m: nat, pages: nat)
    requires m < pages && NoneTaken(tables, shape, virt, m + 1) && TablesNeeded(shape.Keys, virt, m + 1) > free
    ensures MapOutcome(tables, shape, free, virt, pages) == Err(OutOfTables)
  {
    hide Taken, TablesNeeded;
    NeededGrows(shape.Keys, virt, m + 1, pages);
    forall k: nat | k < pages ensures !StopsAt(tables, shape, free, virt, k) {
      if k > m { NeededGrows(shape.Keys, virt, m + 1, k); }
    }
  }

  lemma Stopped(tables: Tables, shape: Shape, free: nat, virt: nat, m: nat, pages: nat)
    requires m < pages && StopsAt(tables, shape, free, virt, m)
    ensures MapOutcome(tables, shape, free, virt, pages) == Err(AlreadyMapped)
  {
    hide Taken, TablesNeeded;
  }

  /** A page that is not mapped after the pages before it were written was not taken. */
  lemma NotTakenWhen(t0: Tables, s0: Shape, t1: Tables, s1: Shape, virt: nat, phys: nat, k: nat, flags: set<VmmFlag>)
    requires PagesWritten(t0, s0, t1, s1, virt, phys, k, flags)
    requires !Leaf(t1, s1, NthPage(virt, k)).IsPresent()
    ensures NoneTaken(t0, s0, virt, k + 1)
  {
    hide PageOf, Leaf;
    WrittenWereFree(t0, s0, t1, s1, virt, phys, k, flags);
    var p := NthPage(virt, k);
    assert !InPages(virt, k, p) by {
      forall j: nat | j < k ensures NthPage(virt, j) != p {
        assert Leaf(t1, s1, NthPage(virt, j)) == NthEntry(phys, j, flags);
      }
    }
    assert Leaf(t1, s1, p) == Leaf(t0, s0, p);
  }

  lemma GrewAlong(places: set<Node>, s1: Shape, s2: Shape, virt: nat, n: nat)
    requires s1.Keys == places + PathsTo(virt, n) && GrewBy(s1, s2, NthPage(virt, n))
    ensures s2.Keys == places + PathsTo(virt, n + 1)
  {
    hide PathTo, NthPage;
  }

  lemma NothingNeeded(places: set<Node>, virt: nat)
    ensures TablesNeeded(places, virt, 0) == 0 && places == places + PathsTo(virt, 0)
  {
    assert PathsTo(virt, 0) - places == {};
  }

  lemma AllMapped(tables: Tables, shape: Shape, free: nat, virt: nat, pages: nat)
    requires NoneTaken(tables, shape, virt, pages) && TablesNeeded(shape.Keys, virt, pages) <= free
    ensures MapOutcome(tables, shape, free, virt, pages) == Ok(())
  {
  }

  /** Either failure of the loop at page `m` is the outcome decided beforehand. */
  lemma WhyStopped(e: VmmError, t0: Tables, s0: Shape, t1: Tables, s1: Shape, free: nat, virt: nat, phys: nat, m: nat, pages: nat,
                   flags: set<VmmFlag>)
    requires m < pages && PagesWritten(t0, s0, t1, s1, virt, phys, m, flags)
    requires TablesNeeded(s0.Keys, virt, m) <= free
    requires e == AlreadyMapped <==> Leaf(t1, s1, NthPage(virt, m)).IsPresent()
    requires e == OutOfTables <==> TablesNeeded(s0.Keys, virt, m + 1) > free
    requires e == AlreadyMapped || e == OutOfTables
    ensures MapOutcome(t0, s0, free, virt, pages) == Err(e)
  {
    hide PageOf, Leaf, TablesNeeded, MapOutcome, PagesWritten, Taken;
    if e == AlreadyMapped {
      TakenWhen(t0, s0, t1, s1, virt, phys, m, flags);
      WrittenWereFree(t0, s0, t1, s1, virt, phys, m, flags);
      Stopped(t0, s0, free, virt, m, pages);
    } else {
      NotTakenWhen(t0, s0, t1, s1, virt, phys, m, flags);
      RanOut(t0, s0, free, virt, m, pages);
    }
  }

  lemma PlainAt(blocked: set<Node>, virt: nat, n: nat, k: nat)
    requires PlainRange(blocked, virt, n) && k < n
    ensures Plain(blocked, NthPage(virt, k))
  {
  }

  lemma PlainPrefix(blocked: set<Node>, virt: nat, n: nat, k: nat)
    requires PlainRange(blocked, virt, n) && k <= n
    ensures PlainRange(blocked, virt, k)
  {
  }

  // ---------------------------------------------------------------- what trimming drops

  /** No place, and nothing blocked, hangs from the table at `n`. */
  ghost predicate NothingBelow(shape: Shape, blocked: set<Node>, n: Node)
    requires HasChildren(n)
  {
    forall i: nat | i < ENTRIES :: Child(n, i) !in shape && Child(n, i) !in blocked
  }

  /** Nothing else hangs from the table that `n` hangs from. */
  ghost predicate Alone(shape: Shape, blocked: set<Node>, n: Node)
    requires !n.Root?
  {
    forall i: nat | i < ENTRIES && Child(Parent(n), i) != n :: Child(Parent(n), i) !in shape && Child(Parent(n), i) !in blocked
  }

  /** A table is left without entries exactly when what was dropped below it was alone. */
  lemma DropPath(shape: Shape, blocked: set<Node>, p: VPage)
    requires p.Ok() && p.Holder() !in blocked && Pd(p.l4, p.l3) !in blocked
    ensures NothingBelow(shape - {p.Holder()}, blocked, Pd(p.l4, p.l3)) <==> Alone(shape, blocked, p.Holder())
    ensures NothingBelow(shape - {p.Holder()} - {Pd(p.l4, p.l3)}, blocked, Pdpt(p.l4)) <==> Alone(shape, blocked, Pd(p.l4, p.l3))
  {
    DropOne(shape, blocked, Pd(p.l4, p.l3), p.l2);
    var rest := shape - {p.Holder()};
    DropOne(rest, blocked, Pdpt(p.l4), p.l3);
    assert forall i: nat :: Child(Pdpt(p.l4), i) in rest <==> Child(Pdpt(p.l4), i) in shape;
  }

  lemma DropOne(shape: Shape, blocked: set<Node>, n: Node, i: nat)
    requires HasChildren(n) && i < ENTRIES && Child(n, i) !in blocked
    ensures NothingBelow(shape - {Child(n, i)}, blocked, n) <==> Alone(shape, blocked, Child(n, i))
  {
    var c := Child(n, i);
    assert Parent(c) == n;
    assert forall k: nat :: Child(n, k) in shape - {c} <==> Child(n, k) in shape && Child(n, k) != c;
  }

  /** Mapping a page again needs a new frame for every table dropped from its path. */
  lemma RemapNeeds(shape: Shape, p: VPage, dropped: set<Node>)
    requires dropped <= PathTo(p) <= shape.Keys
    ensures Missing(shape - dropped, p) == |dropped|
  {
    hide PathTo, Missing;
    MissingIsSize(shape - dropped, p);
    assert PathTo(p) - (shape - dropped).Keys == dropped;
  }

  lemma DropTwice<K, V>(m: map<K, V>, a: set<K>, b: set<K>)
    ensures m - a - b == m - (a + b)
  {
  }

  // ---------------------------------------------------------------- single pages

  class Mmu {
    const pmm: Pmm
    const root: nat
    ghost const blocked: set<Node>
    var tables: Tables
    ghost var shape: Shape

    /** Takes over a prepared tree of tables (the bootstrap's), whose frames the allocator does not hold free. */
    constructor (pmm: Pmm, root: nat, tables: Tables, ghost shape: Shape, ghost blocked: set<Node>)
      requires pmm.Valid() && WellFormed(root, tables, shape, blocked)
      requires forall f :: f in tables ==> HeldFrame(f, pmm.Free())
      ensures Valid() && this.pmm == pmm && this.root == root && this.blocked == blocked
      ensures this.tables == tables && this.shape == shape
    {
      this.pmm, this.root, this.tables := pmm, root, tables;
      this.shape, this.blocked := shape, blocked;
    }

    /** The tables form a tree, and none of their frames is in the allocator's pool. */
    ghost predicate Valid()
      reads this, pmm, pmm.bits, pmm.bits.words
    {
      && pmm.Valid()
      && WellFormed(root, tables, shape, blocked)
      && (forall f :: f in tables ==> HeldFrame(f, pmm.Free()))
    }

    ghost function LeafAt(p: VPage): Entry
      requires p.Ok()
      reads this
    {
      Leaf(tables, shape, p)
    }

    lemma RootPlace()
      requires Valid()
      ensures Root in shape && shape[Root] == root && root in tables
    {
    }

    /** A page's leaf entry lies in its last-level table; without that table it is empty. */
    lemma LeafSlot(p: VPage)
      requires Valid() && p.Ok()
      ensures LeafAt(p).IsPresent() || LeafAt(p) == EMPTY
      ensures p.Holder() !in shape ==> LeafAt(p) == EMPTY
      ensures p.Holder() in shape ==>
                && Pdpt(p.l4) in shape && Pd(p.l4, p.l3) in shape
                && shape[p.Holder()] in tables && LeafAt(p) == tables[shape[p.Holder()]][p.l1]
    {
      if p.Holder() in shape {
        assert SlotOk(tables, shape, blocked, p.Holder(), p.l1);
        assert PlaceOk(shape, blocked, p.Holder());
        assert PlaceOk(shape, blocked, Pd(p.l4, p.l3));
      }
    }

    lemma Step(n: Node, i: nat)
      requires Valid() && n in shape && HasChildren(n) && i < ENTRIES && Child(n, i) !in blocked
      ensures shape[n] in tables
      ensures tables[shape[n]][i].IsPresent() <==> Child(n, i) in shape
      ensures Child(n, i) in shape ==> tables[shape[n]][i].addr == shape[Child(n, i)]
      ensures Child(n, i) !in shape ==> tables[shape[n]][i] == EMPTY
    {
      assert SlotOk(tables, shape, blocked, n, i);
    }

    /** One level of `map_page_hw`: makes the table below slot `i` exist, without changing any leaf. */
    method EnsureTable(frame: nat, ghost n: Node, i: nat, flags: set<VmmFlag>) returns (ok: bool)
      requires Valid() && n in shape && shape[n] == frame
      requires HasChildren(n) && i < ENTRIES && Child(n, i) !in blocked
      modifies this`tables, this`shape, pmm`freePages, pmm`nextHint, pmm.bits, pmm.bits.words
      ensures Valid() && Accounted(old(tables.Keys), old(pmm.Free()), tables.Keys, pmm.Free())
      ensures forall m :: m in old(shape) ==> m in shape && shape[m] == old(shape)[m]
      ensures SameLeaves(old(tables), old(shape), tables, shape)
      ensures ok ==> Child(n, i) in shape && frame in tables && tables[frame][i].IsPresent() && tables[frame][i].addr == shape[Child(n, i)]
      ensures ok <==> old(Child(n, i) in shape) || old(pmm.freePages) > 0
      ensures !ok ==> pmm.Free() == {}
      ensures pmm.freePages == old(pmm.freePages) - (if ok && old(Child(n, i) !in shape) then 1 else 0)
      ensures forall m :: m in shape ==> m in old(shape) || m == Child(n, i)
    {
      hide Pmm.Valid, WellFormed, SameLeaves;
      Step(n, i);
      SameLeavesRefl(tables, shape);
      if tables[frame][i].IsPresent() { return true; }
      var page := pmm.AllocPage();
      if page.None? { return false; }
      ghost var t0, s0 := tables, shape;
      var e := SetPage(tables[frame][i], page.value, NonLeafFlags(flags));
      tables := WriteEntry(tables, frame, i, e);
      tables := tables[page.value := CLEARED];
      shape := shape[Child(n, i) := page.value];
      AddTable(root, t0, s0, blocked, n, i, page.value, e);
      ok := true;
    }

    /** The two upper levels on the way to a page. */
    method EnsureDirectory(p: VPage, flags: set<VmmFlag>) returns (r: Option<nat>)
      requires Valid() && p.Ok() && Plain(blocked, p)
      modifies this`tables, this`shape, pmm`freePages, pmm`nextHint, pmm.bits, pmm.bits.words
      ensures Valid() && Accounted(old(tables.Keys), old(pmm.Free()), tables.Keys, pmm.Free())
      ensures SameLeaves(old(tables), old(shape), tables, shape)
      ensures r.None? <==> old(pmm.freePages) < MissingUpper(old(shape), p)
      ensures r.None? ==> pmm.Free() == {}
      ensures r.Some? ==>
        && Pd(p.l4, p.l3) in shape && shape[Pd(p.l4, p.l3)] == r.value
        && pmm.freePages == old(pmm.freePages) - MissingUpper(old(shape), p)
      ensures forall m :: m in old(shape) ==> m in shape
      ensures forall m :: m in shape ==> m in old(shape) || m == Pdpt(p.l4) || m == Pd(p.l4, p.l3)
      ensures r.Some? ==> Pdpt(p.l4) in shape
    {
      RootPlace();
      LeafSlot(p);
      hide Mmu.Valid, Leaf, Accounted, SameLeaves;
      ghost var t0, s0, f0 := tables, shape, pmm.Free();
      var ok := EnsureTable(root, Root, p.l4, flags);
      if !ok { return None; }
      var pdpt := tables[root][p.l4].addr;
      ghost var t1, s1, f1 := tables, shape, pmm.Free();
      ok := EnsureTable(pdpt, Pdpt(p.l4), p.l3, flags);
      AccountedTrans(t0.Keys, f0, t1.Keys, f1, tables.Keys, pmm.Free());
      SameLeavesTrans(t0, s0, t1, s1, tables, shape);
      if !ok { return None; }
      return Some(tables[pdpt][p.l3].addr);
    }

    /** The first part of `map_page_hw`: provides the tables on the way to a page, or runs out of frames. */
    method EnsurePath(p: VPage, flags: set<VmmFlag>) returns (r: Option<nat>)
      requires Valid() && p.Ok() && Plain(blocked, p)
      modifies this`tables, this`shape, pmm`freePages, pmm`nextHint, pmm.bits, pmm.bits.words
      ensures Valid() && Accounted(old(tables.Keys), old(pmm.Free()), tables.Keys, pmm.Free())
      ensures SameLeaves(old(tables), old(shape), tables, shape)
      ensures r.None? <==> old(pmm.freePages) < Missing(old(shape), p)
      ensures r.None? ==> pmm.Free() == {} && !old(LeafAt(p)).IsPresent()
      ensures r.Some? ==> p.Holder() in shape && shape[p.Holder()] == r.value
      ensures r.Some? ==> GrewBy(old(shape), shape, p) && pmm.freePages == old(pmm.freePages) - Missing(old(shape), p)
    {
      LeafSlot(p);
      hide Mmu.Valid, Leaf, Accounted, SameLeaves, GrewBy;
      ghost var t0, s0, f0 := tables, shape, pmm.Free();
      var pd := EnsureDirectory(p, flags);
      if pd.None? { return None; }
      ghost var t1, s1, f1 := tables, shape, pmm.Free();
      var ok := EnsureTable(pd.value, Pd(p.l4, p.l3), p.l2, flags);
      AccountedTrans(t0.Keys, f0, t1.Keys, f1, tables.Keys, pmm.Free());
      SameLeavesTrans(t0, s0, t1, s1, tables, shape);
      if !ok { return None; }
      GrewByPath(s0, s1, shape, p);
      return Some(tables[pd.value][p.l2].addr);
    }

    /**
     `map_page_hw`: maps the page exactly when it was unmapped and the tables on the way could be
     provided; whatever happens, no other page's entry changes.
     */
    method MapPageHw(virt: nat, phys: nat, flags: set<VmmFlag>) returns (r: Result<(), VmmError>)
      requires Valid() && Plain(blocked, PageOf(virt))
      modifies this`tables, this`shape, pmm`freePages, pmm`nextHint, pmm.bits, pmm.bits.words
      ensures Valid() && Accounted(old(tables.Keys), old(pmm.Free()), tables.Keys, pmm.Free())
      ensures r == Err(AlreadyMapped) <==> old(LeafAt(PageOf(virt))).IsPresent()
      ensures r.Err? ==> SameLeaves(old(tables), old(shape), tables, shape)
      ensures r == Err(OutOfTables) <==> old(pmm.freePages) < Missing(old(shape), PageOf(virt))
      ensures r.Err? && r.error != AlreadyMapped ==> r.error == OutOfTables && pmm.Free() == {}
      ensures r.Ok? ==> LeafWritten(old(tables), old(shape), tables, shape, PageOf(virt), MappedEntry(phys, flags))
      ensures r != Err(OutOfTables) ==>
        GrewBy(old(shape), shape, PageOf(virt)) && pmm.freePages == old(pmm.freePages) - Missing(old(shape), PageOf(virt))
    {
      hide Pmm.Valid, WellFormed, Leaf, PageOf, Accounted, GrewBy;
      var p := PageOf(virt);
      var pt := EnsurePath(p, flags);
      if pt.None? { return Err(OutOfTables); }
      LeafSlot(p);
      if tables[pt.value][p.l1].IsPresent() { return Err(AlreadyMapped); }
      WriteLeaf(root, tables, shape, blocked, p, MappedEntry(phys, flags));
      ghost var keys := tables.Keys;
      tables := WriteEntry(tables, pt.value, p.l1, SetPage(tables[pt.value][p.l1], phys, LeafFlags(flags)));
      assert tables.Keys == keys;
      return Ok(());
    }

    /** The walk common to unmapping and translating: the place of the last-level table, if there is one. */
    method FindLeafTable(p: VPage) returns (r: Option<(nat, nat, nat)>)
      requires Valid() && p.Ok() && Plain(blocked, p)
      ensures r.None? ==> p.Holder() !in shape
      ensures r.Some? ==>
                && Pdpt(p.l4) in shape && Pd(p.l4, p.l3) in shape && p.Holder() in shape
                && r.value == (shape[Pdpt(p.l4)], shape[Pd(p.l4, p.l3)], shape[p.Holder()])
    {
      ghost var pdptOk := PlaceOk(shape, blocked, Pd(p.l4, p.l3));
      ghost var ptOk := PlaceOk(shape, blocked, p.Holder());
      Step(Root, p.l4);
      if !tables[root][p.l4].IsPresent() { return None; }
      var pdpt := tables[root][p.l4].addr;
      Step(Pdpt(p.l4), p.l3);
      if !tables[pdpt][p.l3].IsPresent() { return None; }
      var pd := tables[pdpt][p.l3].addr;
      Step(Pd(p.l4, p.l3), p.l2);
      if !tables[pd][p.l2].IsPresent() { return None; }
      return Some((pdpt, pd, tables[pd][p.l2].addr));
    }

    /** `translate_hw`: the walk ends at the page's leaf entry and adds the offset. */
    method TranslateHw(virt: nat) returns (r: Option<nat>)
      requires Valid() && Plain(blocked, PageOf(virt))
      ensures r == Reached(LeafAt(PageOf(virt)), Offset(virt))
    {
      var p := PageOf(virt);
      var found := FindLeafTable(p);
      if found.None? { return None; }
      var e := tables[found.value.2][p.l1];
      if !e.IsPresent() { return None; }
      return Some(e.addr + Offset(virt));
    }

    /** Nothing hangs from the table at `n`: no page of a last-level table is mapped, no place below another exists. */
    ghost predicate Empty(n: Node)
      reads this
    {
      if n.Pt? then forall q: VPage | q.Ok() && q.Holder() == n :: !LeafAt(q).IsPresent()
      else NothingBelow(shape, blocked, n)
    }

    lemma PresentMeans(n: Node)
      requires Valid() && n in shape
      ensures shape[n] in tables && (HasPresent(tables[shape[n]]) <==> !Empty(n))
    {
      var table := tables[shape[n]];
      if n.Pt? {
        assert PlaceOk(shape, blocked, n) && PlaceOk(shape, blocked, Pd(n.l4, n.l3)) && PlaceOk(shape, blocked, Pdpt(n.l4));
        forall i: nat | i < ENTRIES ensures table[i] == Leaf(tables, shape, VPage(n.l4, n.l3, n.l2, i)) {}
        assert HasPresent(table) ==> exists i: nat :: i < ENTRIES && VPage(n.l4, n.l3, n.l2, i).Ok() && LeafAt(VPage(n.l4, n.l3, n.l2, i)).IsPresent();
      } else {
        forall i: nat | i < ENTRIES ensures table[i].IsPresent() <==> Child(n, i) in shape || Child(n, i) in blocked {
          assert SlotOk(tables, shape, blocked, n, i);
        }
      }
    }

    /** Unlinks the table at `n` when it has no present entry, as the trimming in `unmap_page_hw` does. */
    method TrimIfEmpty(frame: nat, parent: nat, slot: nat, ghost n: Node) returns (trimmed: bool)
      requires Valid() && n in shape && !n.Root? && shape[n] == frame
      requires Parent(n) in shape && shape[Parent(n)] == parent && SlotOf(n) == slot < ENTRIES
      modifies this`tables, this`shape
      ensures Valid() && tables.Keys == old(tables.Keys)
      ensures SameLeaves(old(tables), old(shape), tables, shape)
      ensures trimmed <==> old(Empty(n))
      ensures shape == if trimmed then old(shape) - {n} else old(shape)
    {
      hide WellFormed, SameLeaves, Leaf, Mmu.Empty, HasPresent, Pmm.Valid;
      SameLeavesRefl(tables, shape);
      PresentMeans(n);
      PresentMeans(Parent(n));
      if HasPresent(tables[frame]) { return false; }
      TrimTable(root, tables, shape, blocked, n);
      tables := WriteEntry(tables, parent, slot, EMPTY);
      shape := shape - {n};
      trimmed := true;
    }

    /** No other page of the last-level table is mapped. */
    ghost predicate OnlyPage(p: VPage)
      reads this
    {
      forall q: VPage | q.Ok() && q.Holder() == p.Holder() && q != p :: !LeafAt(q).IsPresent()
    }

    /** The places that trimming after unmapping a page drops: each only if nothing is left below it. */
    ghost function Droppable(p: VPage): set<Node>
      reads this
    {
      if !OnlyPage(p) then {}
      else if !Alone(shape, blocked, p.Holder()) then {p.Holder()}
      else if !Alone(shape, blocked, Pd(p.l4, p.l3)) then {p.Holder()} + {Pd(p.l4, p.l3)}
      else PathTo(p)
    }

    /** The trimming at the end of `unmap_page_hw`. */
    method TrimPath(p: VPage, pdpt: nat, pd: nat, pt: nat)
      requires Valid() && p.Ok() && Pdpt(p.l4) in shape && Pd(p.l4, p.l3) in shape && p.Holder() in shape
      requires shape[Pdpt(p.l4)] == pdpt && shape[Pd(p.l4, p.l3)] == pd && shape[p.Holder()] == pt
      requires !LeafAt(p).IsPresent()
      modifies this`tables, this`shape
      ensures Valid() && tables.Keys == old(tables.Keys)
      ensures SameLeaves(old(tables), old(shape), tables, shape)
      ensures shape == old(shape) - old(Droppable(p))
    {
      RootPlace();
      assert PlaceOk(shape, blocked, p.Holder()) && PlaceOk(shape, blocked, Pd(p.l4, p.l3));
      DropPath(shape, blocked, p);
      assert Empty(p.Holder()) <==> OnlyPage(p);
      hide Mmu.Valid, SameLeaves, NothingBelow, Alone, Leaf, Mmu.OnlyPage;
      ghost var t0, s0 := tables, shape;
      ghost var a, b, c := {p.Holder()}, {Pd(p.l4, p.l3)}, {Pdpt(p.l4)};
      DropTwice(s0, a, b);
      DropTwice(s0, a + b, c);
      assert c + b + a == a + b + c;
      var trimmed := TrimIfEmpty(pt, pd, p.l2, p.Holder());
      if !trimmed { return; }
      ghost var t1, s1 := tables, shape;
      trimmed := TrimIfEmpty(pd, pdpt, p.l3, Pd(p.l4, p.l3));
      SameLeavesTrans(t0, s0, t1, s1, tables, shape);
      if !trimmed { return; }
      ghost var t2, s2 := tables, shape;
      trimmed := TrimIfEmpty(pdpt, root, p.l4, Pdpt(p.l4));
      SameLeavesTrans(t0, s0, t2, s2, tables, shape);
    }

    /**
     `unmap_page_hw`: empties the page's entry, or reports that it was not mapped. Tables left without entries are
     unlinked, which changes no leaf; their frames are neither linked any more nor given back, and mapping the page
     again takes that many new ones.
     */
    method UnmapPageHw(virt: nat) returns (r: Result<(), VmmError>)
      requires Valid() && Plain(blocked, PageOf(virt))
      modifies this`tables, this`shape
      ensures Valid() && tables.Keys == old(tables.Keys)
      ensures r == if old(LeafAt(PageOf(virt))).IsPresent() then Ok(()) else Err(NotMapped)
      ensures r.Err? ==> tables == old(tables) && shape == old(shape)
      ensures LeafWritten(old(tables), old(shape), tables, shape, PageOf(virt), EMPTY)
      ensures r.Ok? ==> shape == old(shape) - old(Droppable(PageOf(virt)))
      ensures r.Ok? ==> Missing(shape, PageOf(virt)) == |old(Droppable(PageOf(virt)))|
    {
      hide Pmm.Valid, WellFormed, Leaf, PageOf, Alone;
      var p := PageOf(virt);
      RootPlace();
      LeafSlot(p);
      var found := FindLeafTable(p);
      if found.None? { return Err(NotMapped); }
      var (pdpt, pd, pt) := found.value;
      if !tables[pt][p.l1].IsPresent() { return Err(NotMapped); }
      WriteLeaf(root, tables, shape, blocked, p, EMPTY);
      ghost var only := OnlyPage(p);
      tables := WriteEntry(tables, pt, p.l1, EMPTY);
      assert OnlyPage(p) <==> only;
      ghost var dropped := Droppable(p);
      RemapNeeds(shape, p, dropped);
      TrimPath(p, pdpt, pd, pt);
      return Ok(());
    }

    /** The rollback and unmapping loops: `unmap_page_hw` on each page of a range, errors ignored. */
    method UnmapPages(virt: nat, n: nat)
      requires Valid() && PlainRange(blocked, virt, n)
      modifies this`tables, this`shape
      ensures Valid() && tables.Keys == old(tables.Keys)
      ensures PagesCleared(old(tables), old(shape), tables, shape, virt, n)
    {
      hide Mmu.Valid, Leaf, PageOf;
      for k := 0 to n
        invariant Valid() && tables.Keys == old(tables.Keys)
        invariant PagesCleared(old(tables), old(shape), tables, shape, virt, k)
      {
        assert Plain(blocked, NthPage(virt, k));
        ghost var t1, s1 := tables, shape;
        var _ := UnmapPageHw(virt + k * PAGE_SIZE);
        ClearedStep(old(tables), old(shape), t1, s1, tables, shape, virt, k);
      }
    }

    /** Undoes the first `mapped` pages of a range, given the tables before (t0) and after (t1) mapping them. */
    method Rollback(virt: nat, ghost phys: nat, mapped: nat, ghost flags: set<VmmFlag>,
                    ghost t0: Tables, ghost s0: Shape, ghost t1: Tables, ghost s1: Shape)
      requires Valid() && PlainRange(blocked, virt, mapped)
      requires PagesWritten(t0, s0, t1, s1, virt, phys, mapped, flags) && SameLeaves(t1, s1, tables, shape)
      modifies this`tables, this`shape
      ensures Valid() && tables.Keys == old(tables.Keys)
      ensures SameLeaves(t0, s0, tables, shape)
    {
      WrittenTransfer(t0, s0, t1, s1, tables, shape, virt, phys, mapped, flags);
      hide Mmu.Valid, PagesWritten, PagesCleared, SameLeaves;
      UnmapPages(virt, mapped);
      ClearUndoesWrite(t0, s0, old(tables), old(shape), tables, shape, virt, phys, mapped, flags);
    }

    /**
     The mapping loop of `map`: all pages are mapped, or the pages mapped so far are unmapped again
     and every leaf is as before.
     */
    method MapPages(virt: nat, phys: nat, pages: nat, flags: set<VmmFlag>) returns (r: Result<(), VmmError>)
      requires Valid() && PlainRange(blocked, virt, pages)
      modifies this`tables, this`shape, pmm`freePages, pmm`nextHint, pmm.bits, pmm.bits.words
      ensures Valid() && Accounted(old(tables.Keys), old(pmm.Free()), tables.Keys, pmm.Free())
      ensures r.Ok? ==> PagesWritten(old(tables), old(shape), tables, shape, virt, phys, pages, flags)
      ensures r.Ok? ==> NoneTaken(old(tables), old(shape), virt, pages)
      ensures r.Err? ==> SameLeaves(old(tables), old(shape), tables, shape)
      ensures r == MapOutcome(old(tables), old(shape), old(pmm.freePages), virt, pages)
      ensures r == Err(OutOfTables) ==> pmm.Free() == {}
    {
      hide Mmu.Valid, Leaf, PageOf, PagesWritten, PagesCleared, SameLeaves, LeafWritten, InPages, MappedEntry, Taken, Accounted,
        Missing, PathsTo, GrewBy, TablesNeeded, MapOutcome, PlainRange;
      ghost var t0, s0, f0 := tables, shape, pmm.freePages;
      WrittenNone(tables, shape, virt, phys, flags);
      AccountedRefl(tables.Keys, pmm.Free());
      NothingNeeded(s0.Keys, virt);
      var mapped := 0;
      while mapped < pages
        invariant 0 <= mapped <= pages
        invariant Valid() && Accounted(old(tables.Keys), old(pmm.Free()), tables.Keys, pmm.Free())
        invariant PagesWritten(t0, s0, tables, shape, virt, phys, mapped, flags)
        invariant shape.Keys == s0.Keys + PathsTo(virt, mapped)
        invariant pmm.freePages == f0 - TablesNeeded(s0.Keys, virt, mapped)
      {
        assert Plain(blocked, NthPage(virt, mapped)) by { PlainAt(blocked, virt, pages, mapped); }
        LeafSlot(NthPage(virt, mapped));
        NeededNext(s0.Keys, shape, virt, mapped);
        ghost var t1, s1, f1 := tables, shape, pmm.Free();
        var step := MapPageHw(virt + mapped * PAGE_SIZE, SatAdd(phys, mapped * PAGE_SIZE), flags);
        AccountedTrans(old(tables.Keys), old(pmm.Free()), t1.Keys, f1, tables.Keys, pmm.Free());
        if step.Err? {
          WhyStopped(step.error, t0, s0, t1, s1, f0, virt, phys, mapped, pages, flags);
          PlainPrefix(blocked, virt, pages, mapped);
          Rollback(virt, phys, mapped, flags, t0, s0, t1, s1);
          return step;
        }
        WrittenStep(t0, s0, t1, s1, tables, shape, virt, phys, mapped, flags);
        GrewAlong(s0.Keys, s1, shape, virt, mapped);
        mapped := mapped + 1;
      }
      WrittenWereFree(t0, s0, tables, shape, virt, phys, pages, flags);
      AllMapped(t0, s0, f0, virt, pages);
      return Ok(());
    }

    /** A free pool that grew by no table's frame keeps the tables safe. */
    twostate lemma PoolChanged(released: set<nat>)
      requires old(Valid()) && pmm.Valid() && tables == old(tables) && shape == old(shape)
      requires pmm.Free() <= old(pmm.Free()) + released
      requires forall f :: f in released ==> f * PAGE_SIZE !in tables
      ensures Valid()
    {
    }
  }

  ghost predicate HeldFrame(f: nat, free: set<nat>) {
    f % PAGE_SIZE == 0 && f / PAGE_SIZE !in free
  }
}
