/**
 The tree a storage volume holds: a list of nodes keyed by their normalised path.
 Closed lists have one node per path, a root directory, and a directory above every other node.
 */
module StorageTree {
  import opened Machine
  import opened Paths
  import opened StorageCodec

  // ---------------------------------------------------------------- keys

  type Key = seq<Bytes>

  /** A node seen through its list of names. */
  datatype Place = Place(key: Key, dir: bool)

  function Above(k: Key): Key
    requires k != []
  {
    k[..|k| - 1]
  }

  predicate Distinct(t: seq<Place>) { forall i, j :: 0 <= i < j < |t| ==> t[i].key != t[j].key }

  predicate Present(t: seq<Place>, k: Key) { Place(k, true) in t || Place(k, false) in t }

  ghost predicate Closed(t: seq<Place>) {
    && Distinct(t)
    && Place([], true) in t
    && (forall p :: p in t && p.key != [] ==> Place(Above(p.key), true) in t)
  }

  lemma AppendKeepsClosed(t: seq<Place>, p: Place)
    requires Closed(t) && p.key != [] && !Present(t, p.key) && Place(Above(p.key), true) in t
    ensures Closed(t + [p])
  {
    forall i | 0 <= i < |t| ensures t[i].key != p.key {
      assert t[i] in t && t[i] == Place(t[i].key, t[i].dir);
    }
  }

  function Without<T>(t: seq<T>, at: nat): seq<T>
    requires at < |t|
  {
    t[..at] + t[at + 1..]
  }

  lemma WithoutKeeps<T>(t: seq<T>, at: nat, x: T)
    requires at < |t|
    ensures x in Without(t, at) ==> x in t
    ensures x in t && x != t[at] ==> x in Without(t, at)
  {
    if x in t && x != t[at] {
      var i :| 0 <= i < |t| && t[i] == x;
      assert Without(t, at)[if i < at then i else i - 1] == x;
    }
  }

  lemma RemoveKeepsClosed(t: seq<Place>, at: nat)
    requires Closed(t) && at < |t| && t[at].key != []
    requires forall p :: p in t && p.key != [] ==> Above(p.key) != t[at].key
    ensures Closed(Without(t, at))
  {
    var rest := Without(t, at);
    assert Distinct(rest);
    WithoutKeeps(t, at, Place([], true));
    forall p | p in rest && p.key != [] ensures Place(Above(p.key), true) in rest {
      WithoutKeeps(t, at, p);
      WithoutKeeps(t, at, Place(Above(p.key), true));
    }
  }

  /** Every directory on the way down to a node is present. */
  lemma {:induction false} AncestorsPresent(t: seq<Place>, p: Place, m: nat)
    requires Closed(t) && p in t && m < |p.key|
    ensures Place(p.key[..m], true) in t
    decreases |p.key|
  {
    var up := Place(Above(p.key), true);
    if m < |up.key| {
      AncestorsPresent(t, up, m);
      assert up.key[..m] == p.key[..m];
    } else {
      assert p.key[..m] == up.key;
    }
  }

  lemma NothingBelowAbsent(t: seq<Place>, p: Place, k: Key)
    requires Closed(t) && p in t && !Present(t, k)
    ensures !(k <= p.key)
  {
    assert p == Place(p.key, p.dir);
    assert k <= p.key && |k| == |p.key| ==> k == p.key;
    if k <= p.key && |k| < |p.key| {
      assert k == p.key[..|k|];
      AncestorsPresent(t, p, |k|);
    }
  }

  lemma KeyDecides(t: seq<Place>, p: Place, q: Place)
    requires Distinct(t) && p in t && q in t && p.key == q.key
    ensures p == q
  {
    var i :| 0 <= i < |t| && t[i] == p;
    var j :| 0 <= j < |t| && t[j] == q;
  }

  /** A node strictly above a free place in a directory is itself a directory. */
  lemma AboveFreeIsDirectory(t: seq<Place>, p: Place, k: Key)
    requires Closed(t) && p in t && p.key <= k && !Present(t, k) && k != [] && Place(Above(k), true) in t
    ensures |p.key| < |k| && p.dir
  {
    assert p == Place(p.key, p.dir);
    assert |p.key| == |k| ==> p.key == k;
    var up := Place(Above(k), true);
    assert p.key == Above(k)[..|p.key|];
    if |p.key| < |up.key| { AncestorsPresent(t, up, |p.key|); }
    hide Closed;
    KeyDecides(t, p, Place(p.key, true));
  }

  lemma FilesHaveNothingBelow(t: seq<Place>, p: Place, q: Place)
    requires Closed(t) && p in t && q in t && !p.dir && p.key != q.key
    ensures !(p.key <= q.key)
  {
    var m := |p.key|;
    assert p.key <= q.key ==> m <= |q.key| && q.key[..m] == p.key;
    assert p.key <= q.key && m == |q.key| ==> q.key == p.key;
    if m < |q.key| {
      AncestorsPresent(t, q, m);
      if q.key[..m] == p.key { KeyDecides(t, p, Place(p.key, true)); }
    }
  }

  // ---------------------------------------------------------------- moving keys

  function MovedKey(k: Key, from: Key, to: Key): Key {
    if from <= k then to + k[|from|..] else k
  }

  function Moved(t: seq<Place>, from: Key, to: Key): seq<Place> {
    seq(|t|, i requires 0 <= i < |t| => Place(MovedKey(t[i].key, from, to), t[i].dir))
  }

  lemma MovedKeyInjective(a: Key, b: Key, from: Key, to: Key)
    requires !(to <= a) && !(to <= b) && a != b
    ensures MovedKey(a, from, to) != MovedKey(b, from, to)
  {
    if from <= a && from <= b {
      assert a == from + a[|from|..] && b == from + b[|from|..];
      assert (to + a[|from|..])[|to|..] == a[|from|..] && (to + b[|from|..])[|to|..] == b[|from|..];
    }
  }

  lemma MovedAbove(k: Key, from: Key, to: Key)
    requires from != [] && k != [] && k != from
    ensures MovedKey(k, from, to) != [] ==> Above(MovedKey(k, from, to)) == MovedKey(Above(k), from, to)
  {
    if from <= k {
      assert from <= Above(k);
      assert Above(to + k[|from|..]) == to + Above(k)[|from|..];
    } else {
      assert !(from <= Above(k));
    }
  }

  /** Moving a subtree to a free name in a directory outside it keeps the list closed. */
  lemma MoveKeepsClosed(t: seq<Place>, from: Key, to: Key)
    requires Closed(t) && from != [] && to != [] && !Present(t, to) && Place(Above(to), true) in t && !(from <= to)
    ensures Closed(Moved(t, from, to))
  {
    var u := Moved(t, from, to);
    forall i, j | 0 <= i < j < |u| ensures u[i].key != u[j].key {
      NothingBelowAbsent(t, t[i], to);
      NothingBelowAbsent(t, t[j], to);
      MovedKeyInjective(t[i].key, t[j].key, from, to);
    }
    forall p | p in t ensures Place(MovedKey(p.key, from, to), p.dir) in u {
      var i :| 0 <= i < |t| && t[i] == p;
      assert u[i] in u;
    }
    assert Place(MovedKey([], from, to), true) in u;
    forall q | q in u && q.key != [] ensures Place(Above(q.key), true) in u {
      var i :| 0 <= i < |t| && u[i] == q;
      MovedStepsUp(t, t[i], from, to);
    }
  }

  lemma MovedStepsUp(t: seq<Place>, p: Place, from: Key, to: Key)
    requires Closed(t) && p in t && from != [] && to != [] && Place(Above(to), true) in t && !(from <= to)
    ensures var k := MovedKey(p.key, from, to);
            k != [] ==> exists q :: q in t && q.dir && MovedKey(q.key, from, to) == Above(k)
  {
    var k := MovedKey(p.key, from, to);
    if p.key == from {
      assert k == to;
      assert from <= Above(to) ==> from <= to;
      assert MovedKey(Place(Above(to), true).key, from, to) == Above(k);
    } else if p.key != [] && k != [] {
      MovedAbove(p.key, from, to);
      assert MovedKey(Place(Above(p.key), true).key, from, to) == Above(k);
    }
  }

  // ---------------------------------------------------------------- nodes

  function PlaceOf(n: FsNode): Place { Place(Names(n.path), n.kind == DirectoryNode) }

  function Places(nodes: seq<FsNode>): seq<Place> {
    seq(|nodes|, i requires 0 <= i < |nodes| => PlaceOf(nodes[i]))
  }

  predicate AllNormal(nodes: seq<FsNode>) { forall i :: 0 <= i < |nodes| ==> Normal(nodes[i].path) == nodes[i].path }

  ghost predicate IsTree(nodes: seq<FsNode>) { AllNormal(nodes) && Closed(Places(nodes)) }

  /** `find_node` on a normalised path: the first node with it. */
  function IndexOf(nodes: seq<FsNode>, path: Bytes): (r: Option<nat>)
    ensures r.Some? ==> r.value < |nodes| && nodes[r.value].path == path && forall j :: 0 <= j < r.value ==> nodes[j].path != path
    ensures r.None? ==> forall j :: 0 <= j < |nodes| ==> nodes[j].path != path
  {
    if nodes == [] then None
    else
      var n := |nodes| - 1;
      match IndexOf(nodes[..n], path)
      case Some(i) => Some(i)
      case None => if nodes[n].path == path then Some(n) else None
  }

  predicate IsChildOf(parent: Bytes, path: Bytes): (b: bool)
    ensures b ==> |parent| <= |path|
  {
    if parent == ROOT then path != [] && path[0] == SLASH else ExtendsBySlash(parent, path)
  }

  function SplitParent(path: Bytes): Option<(Bytes, Bytes)> {
    var p := Normal(path);
    if p == ROOT then None
    else
      var parts := Parts(p);
      if parts == [] then None else Some((Absolute(parts[..|parts| - 1]), parts[|parts| - 1]))
  }

  datatype TreeError = AlreadyExists | InvalidPath | ParentNotFound | ParentNotDirectory | PathNotFound
                     | CannotRemoveRoot | NotEmpty | DestinationExists | NotAFile

  /** `ensure_parent_dir`. */
  function ParentCheck(nodes: seq<FsNode>, path: Bytes): Result<(), TreeError> {
    match SplitParent(path)
    case None => Err(InvalidPath)
    case Some((parent, _)) =>
      match IndexOf(nodes, Normal(parent))
      case None => Err(ParentNotFound)
      case Some(i) => if nodes[i].kind == DirectoryNode then Ok(()) else Err(ParentNotDirectory)
  }

  /** `normalize_path`. */
  method NormalizePath(path: Bytes) returns (r: Bytes)
    ensures r == Normal(path) && Normal(r) == r
  {
    NormalIdempotent(path);
    if path == [] || path == ROOT {
      NoSlash([]);
      PlainNormal([]);
      assert Normal(path) == ROOT;
      return ROOT;
    }
    var names := ReducePieces([], Split(path));
    return Absolute(names);
  }

  // ---------------------------------------------------------------- paths and keys agree

  lemma NormalKey(path: Bytes)
    requires Normal(path) == path
    ensures AllPlain(Names(path)) && AllNames(Names(path)) && path == Absolute(Names(path))
    ensures path == ROOT <==> Names(path) == []
  {
    hide Reduce, Split;
    NamesArePlain(path);
    assert AllNames(Names(path)) by {
      forall i | 0 <= i < |Names(path)| ensures IsName(Names(path)[i]) { assert IsPlainName(Names(path)[i]); }
    }
    AbsoluteLength(Names(path));
  }

  lemma PlainNormal(names: Key)
    requires AllPlain(names)
    ensures Normal(Absolute(names)) == Absolute(names) && Names(Absolute(names)) == names
  {
    NamesOfAbsolute(names);
  }

  lemma IsChildMeansPrefix(parent: Bytes, path: Bytes)
    requires Normal(parent) == parent && Normal(path) == path
    ensures IsChildOf(parent, path) <==> Names(parent) <= Names(path)
  {
    NormalKey(parent);
    NormalKey(path);
    var a, b := Names(parent), Names(path);
    hide Normal, Names;
    if a == [] {
      assert Absolute(b)[0] == SLASH;
    } else {
      ExtendsMeansPrefix(a, b);
    }
  }

  lemma SplitParentMeansAbove(path: Bytes)
    requires Normal(path) == path
    ensures SplitParent(path).None? <==> path == ROOT
    ensures path != ROOT ==> (
        var k := Names(path);
        && SplitParent(path) == Some((Absolute(Above(k)), k[|k| - 1]))
        && Normal(Absolute(Above(k))) == Absolute(Above(k)) && Names(Absolute(Above(k))) == Above(k))
  {
    NormalKey(path);
    var k := Names(path);
    PartsOfAbsolute(k);
    if path != ROOT {
      PlainNormal(Above(k));
    }
  }

  lemma PlaceIn(nodes: seq<FsNode>, path: Bytes)
    requires AllNormal(nodes) && Normal(path) == path
    ensures IndexOf(nodes, path).None? <==> !Present(Places(nodes), Names(path))
    ensures IndexOf(nodes, path).Some? ==> PlaceOf(nodes[IndexOf(nodes, path).value]) in Places(nodes)
  {
    hide Names, Normal;
    var t := Places(nodes);
    var r := IndexOf(nodes, path);
    if r.Some? {
      assert t[r.value] == Place(Names(path), nodes[r.value].kind == DirectoryNode);
    }
    if Present(t, Names(path)) {
      var i :| 0 <= i < |t| && t[i].key == Names(path);
      assert Normal(nodes[i].path) == nodes[i].path;
      SamePath(nodes[i].path, path);
    }
  }

  lemma SamePath(a: Bytes, b: Bytes)
    requires Normal(a) == a && Normal(b) == b && Names(a) == Names(b)
    ensures a == b
  {
  }

  /** The parent check passes exactly when the directory above is in the tree. */
  lemma ParentCheckMeans(nodes: seq<FsNode>, path: Bytes)
    requires AllNormal(nodes) && Distinct(Places(nodes)) && Normal(path) == path
    ensures ParentCheck(nodes, path).Ok? <==> path != ROOT && Names(path) != [] && Place(Above(Names(path)), true) in Places(nodes)
  {
    NormalKey(path);
    SplitParentMeansAbove(path);
    hide Names, Normal, Absolute;
    if path != ROOT {
      var up := Absolute(Above(Names(path)));
      PlaceIn(nodes, up);
      var t := Places(nodes);
      var r := IndexOf(nodes, up);
      if r.Some? {
        assert t[r.value].key == Above(Names(path));
        assert Distinct(t);
        assert Place(Above(Names(path)), true) in t ==> t[r.value].dir;
      }
    }
  }

  predicate UniquePaths(nodes: seq<FsNode>) { forall i, j :: 0 <= i < j < |nodes| ==> nodes[i].path != nodes[j].path }

  predicate RootIsDirectory(nodes: seq<FsNode>) {
    IndexOf(nodes, ROOT).Some? && nodes[IndexOf(nodes, ROOT).value].kind == DirectoryNode
  }

  predicate ParentsAreDirectories(nodes: seq<FsNode>) {
    forall i :: 0 <= i < |nodes| && nodes[i].path != ROOT ==> ParentCheck(nodes, nodes[i].path).Ok?
  }

  /** Being a tree, in the terms of the code's own lookups. */
  lemma TreeMeans(nodes: seq<FsNode>)
    requires AllNormal(nodes)
    ensures IsTree(nodes) <==> UniquePaths(nodes) && RootIsDirectory(nodes) && ParentsAreDirectories(nodes)
  {
    UniqueMeansDistinct(nodes);
    if UniquePaths(nodes) {
      RootMeans(nodes);
      ParentsMean(nodes);
    }
    hide UniquePaths, RootIsDirectory, ParentsAreDirectories, Distinct, Places;
  }

  lemma UniqueMeansDistinct(nodes: seq<FsNode>)
    requires AllNormal(nodes)
    ensures UniquePaths(nodes) <==> Distinct(Places(nodes))
  {
    hide Names, Normal;
    var t := Places(nodes);
    forall i, j | 0 <= i < j < |nodes| ensures nodes[i].path == nodes[j].path <==> t[i].key == t[j].key {
      if t[i].key == t[j].key { SamePath(nodes[i].path, nodes[j].path); }
    }
  }

  lemma RootMeans(nodes: seq<FsNode>)
    requires AllNormal(nodes) && Distinct(Places(nodes))
    ensures RootIsDirectory(nodes) <==> Place([], true) in Places(nodes)
  {
    PlainNormal([]);
    hide Names, Normal, Distinct;
    PlaceIn(nodes, ROOT);
    var t, r := Places(nodes), IndexOf(nodes, ROOT);
    if r.Some? && Place([], true) in t {
      KeyDecides(t, PlaceOf(nodes[r.value]), Place([], true));
    }
  }

  ghost predicate DirectoryAbove(t: seq<Place>, p: Place) { p.key != [] ==> Place(Above(p.key), true) in t }

  lemma ParentsMean(nodes: seq<FsNode>)
    requires AllNormal(nodes) && Distinct(Places(nodes))
    ensures ParentsAreDirectories(nodes) <==> forall p :: p in Places(nodes) && p.key != [] ==> Place(Above(p.key), true) in Places(nodes)
  {
    hide Names, Normal, Distinct, ParentCheck;
    var t := Places(nodes);
    forall i | 0 <= i < |nodes|
      ensures (nodes[i].path != ROOT ==> ParentCheck(nodes, nodes[i].path).Ok?) <==> DirectoryAbove(t, t[i])
    {
      NormalKey(nodes[i].path);
      ParentCheckMeans(nodes, nodes[i].path);
    }
    assert forall p :: p in t ==> exists i :: 0 <= i < |t| && t[i] == p;
    assert ParentsAreDirectories(nodes) <==> forall i :: 0 <= i < |t| ==> DirectoryAbove(t, t[i]);
  }

  // ---------------------------------------------------------------- what the operations do

  /** The relabelling of one node in `fs_rename`'s loop. */
  function Relabel(n: FsNode, old_: Bytes, to: Bytes): FsNode {
    if n.path != old_ && IsChildOf(old_, n.path) then n.(path := to + n.path[|old_|..]) else n
  }

  /** `fs_rename` of node `at`: it gets the new path first, then the loop runs over every node. */
  function Renamed(nodes: seq<FsNode>, at: nat, to: Bytes): seq<FsNode>
    requires at < |nodes|
  {
    var changed := nodes[at := nodes[at].(path := to)];
    if nodes[at].kind == DirectoryNode then seq(|nodes|, i requires 0 <= i < |nodes| => Relabel(changed[i], nodes[at].path, to))
    else changed
  }

  lemma CreateKeepsTree(nodes: seq<FsNode>, n: FsNode)
    requires IsTree(nodes) && Normal(n.path) == n.path && IndexOf(nodes, n.path).None? && ParentCheck(nodes, n.path).Ok?
    ensures IsTree(nodes + [n])
  {
    hide Names, Normal;
    PlaceIn(nodes, n.path);
    ParentCheckMeans(nodes, n.path);
    AppendKeepsClosed(Places(nodes), PlaceOf(n));
    assert Places(nodes + [n]) == Places(nodes) + [PlaceOf(n)];
  }

  /** Replacing a node's data leaves the tree alone. */
  lemma DataKeepsTree(nodes: seq<FsNode>, at: nat, data: Bytes)
    requires IsTree(nodes) && at < |nodes|
    ensures IsTree(nodes[at := nodes[at].(data := data)])
  {
    hide Names, Normal;
    assert Places(nodes[at := nodes[at].(data := data)]) == Places(nodes);
  }

  predicate NothingBelow(nodes: seq<FsNode>, path: Bytes) {
    forall i :: 0 <= i < |nodes| && nodes[i].path != path ==> !IsChildOf(path, nodes[i].path)
  }

  lemma NotAboveOthers(nodes: seq<FsNode>, at: nat, i: nat)
    requires IsTree(nodes) && at < |nodes| && i < |nodes| && Names(nodes[i].path) != []
    requires nodes[at].kind == DirectoryNode ==> NothingBelow(nodes, nodes[at].path)
    ensures Above(Names(nodes[i].path)) != Names(nodes[at].path)
  {
    hide Names, Normal, IsChildOf;
    var t := Places(nodes);
    var k := Names(nodes[i].path);
    IsChildMeansPrefix(nodes[at].path, nodes[i].path);
    assert Above(k) <= k && Above(k) != k;
    assert t[i] in t;
    var j :| 0 <= j < |t| && t[j] == Place(Above(k), true);
    assert t[at].key == Above(k) ==> j == at;
  }

  lemma DeleteKeepsTree(nodes: seq<FsNode>, at: nat)
    requires IsTree(nodes) && at < |nodes| && nodes[at].path != ROOT
    requires nodes[at].kind == DirectoryNode ==> NothingBelow(nodes, nodes[at].path)
    ensures IsTree(Without(nodes, at))
  {
    NormalKey(nodes[at].path);
    var t := Places(nodes);
    hide Names, Normal, IsChildOf, NothingBelow, Closed;
    forall p | p in t && p.key != [] ensures Above(p.key) != t[at].key {
      var i :| 0 <= i < |t| && t[i] == p;
      NotAboveOthers(nodes, at, i);
    }
    RemoveKeepsClosed(t, at);
    PlacesWithout(nodes, at);
  }

  lemma PlacesWithout(nodes: seq<FsNode>, at: nat)
    requires at < |nodes|
    ensures Places(Without(nodes, at)) == Without(Places(nodes), at)
    ensures AllNormal(nodes) ==> AllNormal(Without(nodes, at))
  {
    hide Names, Normal;
  }

  // ---------------------------------------------------------------- rename

  /** What a move means for one path: the part below the source is kept, the rest is replaced. */
  function MovedPath(p: Bytes, from: Bytes, to: Bytes): Bytes {
    if IsChildOf(from, p) then to + p[|from|..] else p
  }

  lemma MovedPathMeansMovedKey(p: Bytes, from: Bytes, to: Bytes)
    requires Normal(p) == p && Normal(from) == from && Normal(to) == to && from != ROOT && to != ROOT
    ensures var q := MovedPath(p, from, to);
            Normal(q) == q && Names(q) == MovedKey(Names(p), Names(from), Names(to))
  {
    NormalKey(p);
    NormalKey(from);
    NormalKey(to);
    IsChildMeansPrefix(from, p);
    var k, f, t := Names(p), Names(from), Names(to);
    hide Names, Normal, IsChildOf;
    if f <= k {
      var rest := k[|f|..];
      assert f + rest == k;
      PrefixExtends(f, rest);
      PrefixExtends(t, rest);
      assert AllPlain(t + rest) by {
        forall i | 0 <= i < |t + rest| ensures IsPlainName((t + rest)[i]) {
          if i >= |t| { assert rest[i - |t|] == k[i - |t| + |f|]; }
        }
      }
      PlainNormal(t + rest);
      assert p[|from|..] == Render(rest);
    }
  }

  /** Preconditions under which `fs_rename` reaches its relabelling. */
  ghost predicate CanRename(nodes: seq<FsNode>, at: nat, to: Bytes) {
    && IsTree(nodes) && at < |nodes| && Normal(to) == to
    && IndexOf(nodes, to).None? && ParentCheck(nodes, to).Ok?
  }

  /** The caller-checkable condition: not the root, and not into its own subtree. */
  predicate SafeRename(from: Bytes, to: Bytes) { from != ROOT && !IsChildOf(from, to) }

  /**
   A safe rename gives every node at or below the source the destination in place of the source's path,
   keeps kinds and data, and leaves all other nodes as they were.
   */
  lemma RenameMoves(nodes: seq<FsNode>, at: nat, to: Bytes, i: nat)
    requires CanRename(nodes, at, to) && SafeRename(nodes[at].path, to) && i < |nodes|
    ensures Renamed(nodes, at, to)[i] == nodes[i].(path := MovedPath(nodes[i].path, nodes[at].path, to))
  {
    var from := nodes[at].path;
    hide Names, Normal, IsChildOf, IsTree;
    if i == at {
      SelfMove(from, to);
    } else {
      PathsUnique(nodes, i, at);
      if nodes[at].kind != DirectoryNode { NothingBelowFile(nodes, at, i); }
    }
  }

  lemma SelfMove(from: Bytes, to: Bytes)
    ensures IsChildOf(from, from) && from != ROOT ==> MovedPath(from, from, to) == to
    ensures from != ROOT ==> IsChildOf(from, from)
  {
    assert from[|from|..] == [];
  }

  lemma PathsUnique(nodes: seq<FsNode>, i: nat, j: nat)
    requires IsTree(nodes) && i < |nodes| && j < |nodes| && i != j
    ensures nodes[i].path != nodes[j].path
  {
    hide Names, Normal;
    var t := Places(nodes);
    assert t[i].key != t[j].key;
  }

  lemma NothingBelowFile(nodes: seq<FsNode>, at: nat, i: nat)
    requires IsTree(nodes) && at < |nodes| && i < |nodes| && i != at && nodes[at].kind == FileNode
    ensures !IsChildOf(nodes[at].path, nodes[i].path)
  {
    hide Names, Normal, IsChildOf;
    var t := Places(nodes);
    IsChildMeansPrefix(nodes[at].path, nodes[i].path);
    assert t[at] == PlaceOf(nodes[at]) && t[i] == PlaceOf(nodes[i]) && t[at].key != t[i].key;
    hide Closed, Places;
    FilesHaveNothingBelow(t, t[at], t[i]);
  }

  /** The same preconditions on keys. */
  lemma CanRenameKeys(nodes: seq<FsNode>, at: nat, to: Bytes)
    requires CanRename(nodes, at, to)
    ensures var t, f, g := Places(nodes), Names(nodes[at].path), Names(to);
            && Closed(t) && PlaceOf(nodes[at]) in t && AllNormal(nodes)
            && to != ROOT && g != [] && !Present(t, g) && Place(Above(g), true) in t
            && (IsChildOf(nodes[at].path, to) <==> f <= g) && (nodes[at].path == ROOT <==> f == [])
            && nodes[at].path != to
  {
    hide Names, Normal, IsChildOf;
    ParentCheckMeans(nodes, to);
    PlaceIn(nodes, to);
    IsChildMeansPrefix(nodes[at].path, to);
    NormalKey(nodes[at].path);
    assert Places(nodes)[at] == PlaceOf(nodes[at]);
  }

  lemma SafeRenameKeepsTree(nodes: seq<FsNode>, at: nat, to: Bytes)
    requires CanRename(nodes, at, to) && SafeRename(nodes[at].path, to)
    ensures IsTree(Renamed(nodes, at, to))
  {
    hide Names, Normal, IsChildOf, Closed, Renamed, ParentCheck, MovedPath, MovedKey;
    CanRenameKeys(nodes, at, to);
    var from := nodes[at].path;
    var t, f, g := Places(nodes), Names(from), Names(to);
    MoveKeepsClosed(t, f, g);
    var u := Renamed(nodes, at, to);
    RenamedLength(nodes, at, to);
    forall i | 0 <= i < |nodes| ensures PlaceOf(u[i]) == Moved(t, f, g)[i] && Normal(u[i].path) == u[i].path {
      RenameMoves(nodes, at, to, i);
      MovedPathMeansMovedKey(nodes[i].path, from, to);
    }
    assert Places(u) == Moved(t, f, g);
  }

  lemma RenamedLength(nodes: seq<FsNode>, at: nat, to: Bytes)
    requires at < |nodes|
    ensures |Renamed(nodes, at, to)| == |nodes|
  {
  }

  /** A rename onto a free path frees the old one, unless relabelling could give it back. */
  lemma OldPathGone(nodes: seq<FsNode>, at: nat, to: Bytes, i: nat)
    requires IsTree(nodes) && at < |nodes| && i < |nodes| && |to| > |nodes[at].path|
    ensures |Renamed(nodes, at, to)| == |nodes| && Renamed(nodes, at, to)[i].path != nodes[at].path
  {
    hide IsTree, IsChildOf;
    if i != at { PathsUnique(nodes, i, at); }
  }

  lemma NoPlaceWithoutPath(nodes: seq<FsNode>, path: Bytes, p: Place)
    requires AllNormal(nodes) && Normal(path) == path && p.key == Names(path)
    requires forall i :: 0 <= i < |nodes| ==> nodes[i].path != path
    ensures p !in Places(nodes)
  {
    hide Names, Normal;
    PlaceIn(nodes, path);
    assert p == Place(p.key, p.dir);
  }

  /** Renaming the root leaves no root. */
  lemma RootRenameLosesRoot(nodes: seq<FsNode>, at: nat, to: Bytes)
    requires CanRename(nodes, at, to) && nodes[at].path == ROOT
    ensures !IsTree(Renamed(nodes, at, to))
  {
    hide Names, Normal, Renamed, ParentCheck, IsChildOf, AllNormal;
    CanRenameKeys(nodes, at, to);
    NormalKey(to);
    AbsoluteLength(Names(to));
    NormalAt(nodes, at);
    NormalKey(ROOT);
    var u := Renamed(nodes, at, to);
    forall i | 0 <= i < |nodes| { OldPathGone(nodes, at, to, i); }
    RenamedLength(nodes, at, to);
    if IsTree(u) { NoPlaceWithoutPath(u, ROOT, Place([], true)); }
  }

  /** Renaming a directory into its own subtree leaves that subtree without its top. */
  lemma InnerRenameLosesTop(nodes: seq<FsNode>, at: nat, to: Bytes)
    requires CanRename(nodes, at, to) && nodes[at].path != ROOT && IsChildOf(nodes[at].path, to)
    ensures !IsTree(Renamed(nodes, at, to))
  {
    hide Names, Normal, Renamed, ParentCheck, IsChildOf, Closed;
    CanRenameKeys(nodes, at, to);
    var from := nodes[at].path;
    LongerPath(from, to);
    var u := Renamed(nodes, at, to);
    forall i | 0 <= i < |nodes| { OldPathGone(nodes, at, to, i); }
    RenamedLength(nodes, at, to);
    var f, g := Names(from), Names(to);
    TopLandsBelowItself(nodes, at, to);
    if IsTree(u) {
      var p := PlaceOf(u[at]);
      assert p == Places(u)[at];
      AncestorsPresent(Places(u), p, |f|);
      NoPlaceWithoutPath(u, from, Place(f, true));
    }
  }

  lemma LongerPath(from: Bytes, to: Bytes)
    requires IsChildOf(from, to) && from != ROOT && from != to
    ensures |to| > |from|
  {
  }

  lemma TopLandsBelowItself(nodes: seq<FsNode>, at: nat, to: Bytes)
    requires CanRename(nodes, at, to) && nodes[at].path != ROOT && IsChildOf(nodes[at].path, to)
    ensures at < |Renamed(nodes, at, to)|
    ensures var f, k := Names(nodes[at].path), Names(Renamed(nodes, at, to)[at].path);
            |f| < |k| && k[..|f|] == f
  {
    hide Names, Normal, ParentCheck, IsChildOf, Closed, AllNormal;
    CanRenameKeys(nodes, at, to);
    var from := nodes[at].path;
    var f, g := Names(from), Names(to);
    AboveFreeIsDirectory(Places(nodes), PlaceOf(nodes[at]), g);
    assert AllNormal(nodes) ==> Normal(from) == from by { NormalAt(nodes, at); }
    MovedPathMeansMovedKey(to, from, to);
    assert Renamed(nodes, at, to)[at].path == MovedPath(to, from, to);
    assert (g + g[|f|..])[..|f|] == f;
  }

  lemma NormalAt(nodes: seq<FsNode>, at: nat)
    requires AllNormal(nodes) && at < |nodes|
    ensures Normal(nodes[at].path) == nodes[at].path
  {
  }

  /**
   Once its checks have passed, `fs_rename` keeps the tree exactly when the source is not the root and the
   destination does not lie below it; the code checks neither.
   */
  lemma RenameKeepsTreeExactlyWhen(nodes: seq<FsNode>, at: nat, to: Bytes)
    requires CanRename(nodes, at, to)
    ensures IsTree(Renamed(nodes, at, to)) <==> SafeRename(nodes[at].path, to)
  {
    if SafeRename(nodes[at].path, to) {
      SafeRenameKeepsTree(nodes, at, to);
    } else if nodes[at].path == ROOT {
      RootRenameLosesRoot(nodes, at, to);
    } else {
      InnerRenameLosesTop(nodes, at, to);
    }
  }

  // ---------------------------------------------------------------- trees of one level

  function TopKey(names: Key, i: nat): Key
    requires i <= |names|
  {
    if i == 0 then [] else [names[i - 1]]
  }

  /** The root and these directories in it. */
  function TopDirectories(names: Key): seq<FsNode> {
    seq(|names| + 1, i requires 0 <= i <= |names| => FsNode(Absolute(TopKey(names, i)), DirectoryNode, []))
  }

  lemma TopDirectoriesAreTree(names: Key)
    requires AllPlain(names) && forall i, j :: 0 <= i < j < |names| ==> names[i] != names[j]
    ensures IsTree(TopDirectories(names))
  {
    hide Names, Normal, Absolute, Closed;
    var nodes := TopDirectories(names);
    var t := Places(nodes);
    forall i | 0 <= i <= |names| ensures Normal(nodes[i].path) == nodes[i].path && t[i] == Place(TopKey(names, i), true) {
      PlainNormal(TopKey(names, i));
    }
    TopPlacesClosed(names, t);
  }

  lemma TopPlacesClosed(names: Key, t: seq<Place>)
    requires forall i, j :: 0 <= i < j < |names| ==> names[i] != names[j]
    requires |t| == |names| + 1 && forall i :: 0 <= i < |t| ==> t[i] == Place(TopKey(names, i), true)
    ensures Closed(t)
  {
    assert t[0] == Place([], true);
    forall i, j | 0 <= i < j < |t| ensures t[i].key != t[j].key {
      if i > 0 {
        assert t[i].key[0] == names[i - 1] && t[j].key[0] == names[j - 1];
      }
    }
    forall p | p in t && p.key != [] ensures Place(Above(p.key), true) in t {
      assert Above(p.key) == [];
    }
  }

  /** `/a` renamed to `/a/b` passes every check of `fs_rename` and breaks the tree. */
  lemma RenameIntoItself()
    ensures var nodes, to := TopDirectories([[97]]), Absolute([[97], [98]]);
            && CanRename(nodes, 1, to) && nodes[1].path == Absolute([[97]])
            && !IsTree(Renamed(nodes, 1, to))
  {
    var a: Key, ab: Key := [[97]], [[97], [98]];
    assert AllPlain(a) && AllPlain(ab) && AllNames(a) && AllNames(ab);
    PlainNormal(a);
    PlainNormal(ab);
    TopDirectoriesAreTree(a);
    var nodes, to := TopDirectories(a), Absolute(ab);
    var t := Places(nodes);
    assert Above(ab) == a && a <= ab;
    AbsoluteLength(ab);
    AbsoluteLength(a);
    hide Names, Normal, IsChildOf, Closed, Render;
    assert nodes[1].path == Absolute(a);
    assert t[1] == Place(a, true);
    ParentCheckMeans(nodes, to);
    NotTopDirectory(nodes, to);
    IsChildMeansPrefix(Absolute(a), to);
    RenameKeepsTreeExactlyWhen(nodes, 1, to);
  }

  lemma NotTopDirectory(nodes: seq<FsNode>, to: Bytes)
    requires IsTree(nodes) && Normal(to) == to && |Names(to)| == 2
    requires forall i :: 0 <= i < |nodes| ==> |Names(nodes[i].path)| < 2
    ensures IndexOf(nodes, to).None?
  {
    hide Names, Normal;
  }
}
