/**
 Four-level page tables as the kernel edits them: tables are 512-entry frames
 reached from the root, and an address is translated by walking one entry of
 one table per level.

 The tree of tables is described by a ghost `Shape`: which table sits at which
 place of the tree. The simple form of the tables is `Leaf`, the entry each
 virtual page ends at; the lemmas say how adding a table, writing a leaf and
 trimming an empty table act on `Leaf`.
 */
module PageTable {
  import opened Machine

  const ENTRIES: nat := 512
  const RECURSIVE_SLOT: nat := 511
  const PHYS_LIMIT: nat := 0x10_0000_0000_0000   // 2^52: the address field covers bits 12 to 51

  datatype Flag = Present | Writable | User | Pwt | Pcd | Huge | Global | NoExec

  /** A 64-bit entry word, split into its address field and the flag bits that are set. */
  datatype Entry = Entry(addr: nat, flags: set<Flag>) {
    predicate IsPresent() { Present in flags }
  }

  const EMPTY: Entry := Entry(0, {})

  /** The bits of a physical address that fit the address field. */
  function AddrField(phys: nat): nat { phys % PHYS_LIMIT / PAGE_SIZE * PAGE_SIZE }

  function SetAddress(e: Entry, phys: nat): Entry { e.(addr := AddrField(phys)) }

  function SetPage(e: Entry, phys: nat, flags: set<Flag>): Entry {
    var addressed := SetAddress(e, phys);
    addressed.(flags := addressed.flags + flags + {Present})
  }

  /** The address field holds a page-aligned address unchanged exactly when it is below 2^52. */
  lemma AddressKeptExactlyWhen(phys: nat)
    ensures AddrField(phys) == phys <==> phys % PAGE_SIZE == 0 && phys < PHYS_LIMIT
  {
  }

  type Table = t: seq<Entry> | |t| == ENTRIES witness seq(ENTRIES, _ => EMPTY)

  const CLEARED: Table := seq(ENTRIES, _ => EMPTY)

  predicate HasPresent(t: Table) { exists i :: 0 <= i < ENTRIES && t[i].IsPresent() }

  // ---------------------------------------------------------------- places in the tree

  /** The place of a table: the root (PML4), or the slots that lead to it from the root. */
  datatype Node = Root | Pdpt(l4: nat) | Pd(l4: nat, l3: nat) | Pt(l4: nat, l3: nat, l2: nat)

  predicate HasChildren(n: Node) { !n.Pt? }

  function Child(n: Node, i: nat): Node
    requires HasChildren(n)
  {
    match n
    case Root => Pdpt(i)
    case Pdpt(l4) => Pd(l4, i)
    case Pd(l4, l3) => Pt(l4, l3, i)
  }

  function Parent(n: Node): Node
    requires !n.Root?
  {
    match n
    case Pdpt(_) => Root
    case Pd(l4, _) => Pdpt(l4)
    case Pt(l4, l3, _) => Pd(l4, l3)
  }

  function SlotOf(n: Node): nat
    requires !n.Root?
  {
    match n
    case Pdpt(l4) => l4
    case Pd(_, l3) => l3
    case Pt(_, _, l2) => l2
  }

  /** A virtual page, named by its four table indices. */
  datatype VPage = VPage(l4: nat, l3: nat, l2: nat, l1: nat) {
    predicate Ok() { l4 < ENTRIES && l3 < ENTRIES && l2 < ENTRIES && l1 < ENTRIES }
    function Holder(): Node { Pt(l4, l3, l2) }
  }

  /** `level_indices`. */
  function PageOf(virt: nat): (p: VPage)
    ensures p.Ok()
  {
    VPage(virt / 0x80_0000_0000 % 512, virt / 0x4000_0000 % 512, virt / 0x20_0000 % 512, virt / PAGE_SIZE % 512)
  }

  function Offset(virt: nat): nat { virt % PAGE_SIZE }

  /** The four indices and the offset determine the low 48 bits of an address. */
  lemma IndicesRebuildAddress(virt: nat)
    ensures var p := PageOf(virt);
            p.l4 * 0x80_0000_0000 + p.l3 * 0x4000_0000 + p.l2 * 0x20_0000 + p.l1 * PAGE_SIZE + Offset(virt)
            == virt % 0x1_0000_0000_0000
  {
    var a := virt / PAGE_SIZE;
    assert virt / 0x20_0000 == a / 512;
    assert virt / 0x4000_0000 == a / 512 / 512;
    assert virt / 0x80_0000_0000 == a / 512 / 512 / 512;
    assert virt / 0x1_0000_0000_0000 == a / 512 / 512 / 512 / 512;
  }

  // ---------------------------------------------------------------- the tree of tables

  type Tables = map<nat, Table>
  type Shape = map<Node, nat>

  /** The kernel's reading of slot `i` of the table at `n`: a leaf, a link to a table of the tree, blocked, or empty. */
  ghost predicate SlotOk(tables: Tables, shape: Shape, blocked: set<Node>, n: Node, i: nat)
    requires n in shape && shape[n] in tables && i < ENTRIES
  {
    var e := tables[shape[n]][i];
    if n.Pt? then e.IsPresent() || e == EMPTY
    else if Child(n, i) in blocked then e.IsPresent()
    else if Child(n, i) in shape then e.IsPresent() && e.addr == shape[Child(n, i)]
    else e == EMPTY
  }

  /** Every place but the root hangs from a place of the tree by an unblocked slot. */
  ghost predicate PlaceOk(shape: Shape, blocked: set<Node>, n: Node) {
    !n.Root? ==> Parent(n) in shape && SlotOf(n) < ENTRIES && n !in blocked
  }

  /**
   The present entries below `shape` lead to its tables or are `blocked`: slots that hold
   something other than a table of this tree (the recursive slot, huge pages). All other
   entries are empty, and no two places share a table.
   */
  ghost predicate WellFormed(root: nat, tables: Tables, shape: Shape, blocked: set<Node>) {
    && Root in shape && shape[Root] == root
    && (forall n :: n in shape ==> shape[n] in tables)
    && (forall n :: n in shape ==> PlaceOk(shape, blocked, n))
    && (forall n, i: nat :: n in shape && i < ENTRIES ==> SlotOk(tables, shape, blocked, n, i))
    && (forall n :: n in blocked ==> !n.Root? && Parent(n) in shape && SlotOf(n) < ENTRIES)
    && (forall m, n :: m in shape && n in shape && shape[m] == shape[n] ==> m == n)
  }

  /** The entry a virtual page ends at: the simple form of the whole tree. */
  ghost function Leaf(tables: Tables, shape: Shape, p: VPage): Entry
    requires p.Ok()
  {
    if p.Holder() in shape && shape[p.Holder()] in tables then tables[shape[p.Holder()]][p.l1] else EMPTY
  }

  ghost predicate SameLeaves(t0: Tables, s0: Shape, t1: Tables, s1: Shape) {
    forall p: VPage | p.Ok() :: Leaf(t1, s1, p) == Leaf(t0, s0, p)
  }

  lemma SameLeavesTrans(t0: Tables, s0: Shape, t1: Tables, s1: Shape, t2: Tables, s2: Shape)
    requires SameLeaves(t0, s0, t1, s1) && SameLeaves(t1, s1, t2, s2)
    ensures SameLeaves(t0, s0, t2, s2)
  {
    hide Leaf;
  }

  lemma SameLeavesRefl(t: Tables, s: Shape)
    ensures SameLeaves(t, s, t, s)
  {
  }

  ghost predicate LeafWritten(t0: Tables, s0: Shape, t1: Tables, s1: Shape, at: VPage, e: Entry)
    requires at.Ok()
  {
    forall p: VPage | p.Ok() :: Leaf(t1, s1, p) == if p == at then e else Leaf(t0, s0, p)
  }

  /** No slot on the walk to `p` is blocked. */
  ghost predicate Plain(blocked: set<Node>, p: VPage) {
    Pdpt(p.l4) !in blocked && Pd(p.l4, p.l3) !in blocked && Pt(p.l4, p.l3, p.l2) !in blocked
  }

  // ---------------------------------------------------------------- edits

  function WriteEntry(tables: Tables, frame: nat, i: nat, e: Entry): Tables
    requires frame in tables && i < ENTRIES
  {
    tables[frame := tables[frame][i := e]]
  }

  /** Hanging a cleared table from an empty slot changes no leaf. */
  lemma AddTable(root: nat, tables: Tables, shape: Shape, blocked: set<Node>, n: Node, i: nat, frame: nat, e: Entry)
    requires WellFormed(root, tables, shape, blocked)
    requires n in shape && HasChildren(n) && i < ENTRIES
    requires Child(n, i) !in shape && Child(n, i) !in blocked
    requires frame !in tables && e.IsPresent() && e.addr == frame
    ensures var t1 := WriteEntry(tables, shape[n], i, e)[frame := CLEARED];
            var s1 := shape[Child(n, i) := frame];
            WellFormed(root, t1, s1, blocked) && SameLeaves(tables, shape, t1, s1)
  {
    var t1 := WriteEntry(tables, shape[n], i, e)[frame := CLEARED];
    var s1 := shape[Child(n, i) := frame];
    forall m, j: nat | m in s1 && j < ENTRIES
      ensures SlotOk(t1, s1, blocked, m, j)
    {
      if m == Child(n, i) {
        assert HasChildren(m) ==> PlaceOk(shape, blocked, Child(m, j)) || Child(m, j) !in shape;
        assert HasChildren(m) ==> Parent(Child(m, j)) == m;
      } else {
        assert SlotOk(tables, shape, blocked, m, j);
      }
    }
    forall m | m in s1 ensures PlaceOk(s1, blocked, m) {
      if m in shape { assert PlaceOk(shape, blocked, m); }
    }
  }

  /** Writing a leaf entry changes that leaf and no other. */
  lemma WriteLeaf(root: nat, tables: Tables, shape: Shape, blocked: set<Node>, p: VPage, e: Entry)
    requires WellFormed(root, tables, shape, blocked)
    requires p.Ok() && p.Holder() in shape
    requires e.IsPresent() || e == EMPTY
    ensures var t1 := WriteEntry(tables, shape[p.Holder()], p.l1, e);
            WellFormed(root, t1, shape, blocked) && LeafWritten(tables, shape, t1, shape, p, e)
  {
    var t1 := WriteEntry(tables, shape[p.Holder()], p.l1, e);
    forall m, j: nat | m in shape && j < ENTRIES
      ensures SlotOk(t1, shape, blocked, m, j)
    {
      assert SlotOk(tables, shape, blocked, m, j);
    }
  }

  /** Both the tables of the tree and the blocked slots hang from present entries. */
  lemma HangsFromPresent(root: nat, tables: Tables, shape: Shape, blocked: set<Node>, m: Node)
    requires WellFormed(root, tables, shape, blocked)
    requires m in shape || m in blocked
    requires !m.Root?
    ensures Parent(m) in shape && HasPresent(tables[shape[Parent(m)]])
  {
    if m in shape { assert PlaceOk(shape, blocked, m); }
    assert SlotOk(tables, shape, blocked, Parent(m), SlotOf(m));
    assert Child(Parent(m), SlotOf(m)) == m;
  }

  /** Unlinking a table without present entries changes no leaf. */
  lemma TrimTable(root: nat, tables: Tables, shape: Shape, blocked: set<Node>, n: Node)
    requires WellFormed(root, tables, shape, blocked)
    requires n in shape && !n.Root? && !HasPresent(tables[shape[n]])
    ensures PlaceOk(shape, blocked, n)
    ensures var t1 := WriteEntry(tables, shape[Parent(n)], SlotOf(n), EMPTY);
            var s1 := shape - {n};
            WellFormed(root, t1, s1, blocked) && SameLeaves(tables, shape, t1, s1)
  {
    assert PlaceOk(shape, blocked, n);
    var t1 := WriteEntry(tables, shape[Parent(n)], SlotOf(n), EMPTY);
    var s1 := shape - {n};
    forall m, j: nat | m in s1 && j < ENTRIES
      ensures SlotOk(t1, s1, blocked, m, j)
    {
      assert SlotOk(tables, shape, blocked, m, j);
      if m == Parent(n) && j == SlotOf(n) { assert Child(m, j) == n; }
    }
    forall m | m in s1 ensures PlaceOk(s1, blocked, m) {
      assert PlaceOk(shape, blocked, m);
      if !m.Root? { HangsFromPresent(root, tables, shape, blocked, m); }
    }
    forall m | m in blocked ensures Parent(m) in s1 {
      HangsFromPresent(root, tables, shape, blocked, m);
    }
    forall p: VPage | p.Ok()
      ensures Leaf(t1, s1, p) == Leaf(tables, shape, p)
    {
      if p.Holder() == n {
        assert SlotOk(tables, shape, blocked, n, p.l1);
      }
    }
  }
}
