/**
 The in-memory filesystem's inode tree. Inodes are numbered from 1 and never
 reused; parent links and child lists are kept side by side.

 `Tree` says the two agree and form a tree; a `Rank` that grows from parent to
 child witnesses that there is no cycle. The operations are functions on `Fs`;
 the class in `MemFs.dfy` carries them out in place.
 */
module TmpFs {
  import opened Machine
  import opened Paths

  datatype FileType = Directory | File

  datatype Node = Node(name: Bytes, kind: FileType, parent: Option<nat>, children: seq<nat>, data: seq<Byte>)

  datatype Fs = Fs(nodes: seq<Option<Node>>, cwd: nat)

  const ROOT_INODE: nat := 1

  datatype FsError =
    | PathNotFound | MissingName | InvalidName | ParentNotDirectory | AlreadyExists
    | CannotRemoveRoot | DirectoryNotEmpty | CannotRenameRoot | DestinationExists
    | NodeMissing | NotAFile | NotADirectory

  predicate Live(fs: Fs, i: nat) { 1 <= i <= |fs.nodes| && fs.nodes[i - 1].Some? }

  function Get(fs: Fs, i: nat): Node
    requires Live(fs, i)
  {
    fs.nodes[i - 1].value
  }

  // ---------------------------------------------------------------- the tree

  type Rank = map<nat, nat>

  /** A live inode other than the root hangs, by its own plain name, from a live directory that lists it. */
  ghost predicate Hangs(fs: Fs, rank: Rank, i: nat)
    requires Live(fs, i)
  {
    i == ROOT_INODE
    || (&& Get(fs, i).parent.Some? && Live(fs, Get(fs, i).parent.value)
        && Get(fs, Get(fs, i).parent.value).kind == Directory
        && i in Get(fs, Get(fs, i).parent.value).children
        && IsPlainName(Get(fs, i).name)
        && i in rank && Get(fs, i).parent.value in rank && rank[Get(fs, i).parent.value] < rank[i])
  }

  /** The children a live inode lists are live, know it as their parent, and are all different. */
  ghost predicate Lists(fs: Fs, i: nat)
    requires Live(fs, i)
  {
    && (forall k :: 0 <= k < |Get(fs, i).children| ==>
          Live(fs, Get(fs, i).children[k]) && Get(fs, Get(fs, i).children[k]).parent == Some(i))
    && AllDifferent(Get(fs, i).children)
    && (Get(fs, i).kind == File ==> Get(fs, i).children == [])
  }

  ghost predicate SiblingsDiffer(fs: Fs) {
    forall i: nat, j: nat | Live(fs, i) && Live(fs, j) && i != ROOT_INODE && j != ROOT_INODE && i != j
      && Get(fs, i).parent == Get(fs, j).parent :: Get(fs, i).name != Get(fs, j).name
  }

  /** Parent links and child lists agree and form a tree of distinctly named siblings. */
  ghost predicate Tree(fs: Fs, rank: Rank) {
    && Live(fs, ROOT_INODE) && Get(fs, ROOT_INODE).kind == Directory && Get(fs, ROOT_INODE).parent == None
    && Live(fs, fs.cwd) && Get(fs, fs.cwd).kind == Directory
    && (forall i: nat {:trigger Hangs(fs, rank, i)} | Live(fs, i) :: Hangs(fs, rank, i))
    && (forall i: nat {:trigger Lists(fs, i)} | Live(fs, i) :: Lists(fs, i))
    && SiblingsDiffer(fs)
    && ROOT_INODE in rank
  }

  ghost predicate IsTree(fs: Fs) { exists rank :: Tree(fs, rank) }

  // ---------------------------------------------------------------- lookup and resolution

  /** The first listed child with the name. */
  function FindChild(fs: Fs, children: seq<nat>, name: Bytes): Option<nat> {
    if children == [] then None
    else if Live(fs, children[0]) && Get(fs, children[0]).name == name then Some(children[0])
    else FindChild(fs, children[1..], name)
  }

  /** `lookup_child_by_name`. */
  function Lookup(fs: Fs, dir: nat, name: Bytes): Option<nat> {
    if !Live(fs, dir) || Get(fs, dir).kind != Directory then None
    else FindChild(fs, Get(fs, dir).children, name)
  }

  lemma {:induction false} FindChildFinds(fs: Fs, children: seq<nat>, name: Bytes)
    ensures var r := FindChild(fs, children, name);
            && (r.Some? ==> r.value in children && Live(fs, r.value) && Get(fs, r.value).name == name)
            && (r.None? ==> forall c :: c in children && Live(fs, c) ==> Get(fs, c).name != name)
  {
    if children != [] { FindChildFinds(fs, children[1..], name); }
  }

  /** In a tree, looking a name up finds the one child of that name. */
  lemma LookupIsExact(fs: Fs, rank: Rank, dir: nat, name: Bytes, c: nat)
    requires Tree(fs, rank)
    ensures Lookup(fs, dir, name) == Some(c)
       <==> Live(fs, c) && c != ROOT_INODE && Get(fs, c).parent == Some(dir) && Get(fs, c).name == name
  {
    if Live(fs, dir) {
      FindChildFinds(fs, Get(fs, dir).children, name);
      assert Lists(fs, dir);
    }
    if Live(fs, c) { assert Hangs(fs, rank, c); }
    var r := Lookup(fs, dir, name);
    if r.Some? { ListedChild(fs, rank, dir, r.value); }
  }

  lemma ListedChild(fs: Fs, rank: Rank, dir: nat, c: nat)
    requires Tree(fs, rank) && Live(fs, dir) && c in Get(fs, dir).children
    ensures Live(fs, c) && Get(fs, c).parent == Some(dir) && c != ROOT_INODE
  {
    assert Lists(fs, dir);
  }

  /** The walk of `resolve_from` over the non-empty pieces of a path. */
  function Walk(fs: Fs, at: nat, parts: seq<Bytes>): Option<nat>
    decreases |parts|
  {
    if parts == [] then Some(at)
    else if parts[0] == HERE then Walk(fs, at, parts[1..])
    else if parts[0] == UP then
      if !Live(fs, at) then None
      else
        var parent := Get(fs, at).parent;
        Walk(fs, if parent.Some? then parent.value else at, parts[1..])
    else
      match Lookup(fs, at, parts[0])
      case None => None
      case Some(c) => Walk(fs, c, parts[1..])
  }

  predicate StartsWithSlash(path: Bytes) { path != [] && path[0] == SLASH }

  /** `resolve`. */
  function Resolve(fs: Fs, path: Bytes): Option<nat> {
    Walk(fs, if StartsWithSlash(path) then ROOT_INODE else fs.cwd, Parts(path))
  }

  lemma {:induction false} WalkAppend(fs: Fs, at: nat, a: seq<Bytes>, b: seq<Bytes>)
    ensures Walk(fs, at, a + b) == match Walk(fs, at, a) case None => None case Some(m) => Walk(fs, m, b)
    decreases |a|
  {
    if a == [] {
      assert a + b == b;
    } else {
      assert (a + b)[0] == a[0] && (a + b)[1..] == a[1..] + b;
      if a[0] == HERE {
        WalkAppend(fs, at, a[1..], b);
      } else if a[0] == UP {
        if Live(fs, at) {
          var parent := Get(fs, at).parent;
          WalkAppend(fs, if parent.Some? then parent.value else at, a[1..], b);
        }
      } else if Lookup(fs, at, a[0]).Some? {
        WalkAppend(fs, Lookup(fs, at, a[0]).value, a[1..], b);
      }
    }
  }

  // ---------------------------------------------------------------- paths of inodes

  /** The names on the way from the root to an inode. */
  ghost function PathNames(fs: Fs, rank: Rank, i: nat): seq<Bytes>
    requires Tree(fs, rank) && Live(fs, i)
    decreases if i in rank then rank[i] else 0
  {
    assert Hangs(fs, rank, i);
    if i == ROOT_INODE then [] else PathNames(fs, rank, Get(fs, i).parent.value) + [Get(fs, i).name]
  }

  lemma {:induction false} PathNamesArePlain(fs: Fs, rank: Rank, i: nat)
    requires Tree(fs, rank) && Live(fs, i)
    ensures AllPlain(PathNames(fs, rank, i))
    decreases if i in rank then rank[i] else 0
  {
    assert Hangs(fs, rank, i);
    if i != ROOT_INODE { PathNamesArePlain(fs, rank, Get(fs, i).parent.value); }
  }

  /** Walking an inode's names from the root arrives at the inode. */
  lemma {:induction false} WalkOwnPath(fs: Fs, rank: Rank, i: nat)
    requires Tree(fs, rank) && Live(fs, i)
    ensures Walk(fs, ROOT_INODE, PathNames(fs, rank, i)) == Some(i)
    decreases if i in rank then rank[i] else 0
  {
    assert Hangs(fs, rank, i);
    if i != ROOT_INODE {
      var p, name := Get(fs, i).parent.value, Get(fs, i).name;
      WalkOwnPath(fs, rank, p);
      var last: seq<Bytes> := [name];
      WalkAppend(fs, ROOT_INODE, PathNames(fs, rank, p), last);
      LookupIsExact(fs, rank, p, name, i);
      assert last[1..] == [];
    }
  }

  /** The path string of an inode resolves to it, from anywhere. */
  lemma ResolveOwnPath(fs: Fs, rank: Rank, i: nat)
    requires Tree(fs, rank) && Live(fs, i)
    ensures Resolve(fs, Absolute(PathNames(fs, rank, i))) == Some(i)
  {
    var names := PathNames(fs, rank, i);
    PathNamesArePlain(fs, rank, i);
    AbsoluteLength(names);
    PartsOfAbsolute(names);
    WalkOwnPath(fs, rank, i);
    assert StartsWithSlash(Absolute(names));
  }

  /** Different inodes have different paths. */
  lemma PathsDiffer(fs: Fs, rank: Rank, i: nat, j: nat)
    requires Tree(fs, rank) && Live(fs, i) && Live(fs, j) && PathNames(fs, rank, i) == PathNames(fs, rank, j)
    ensures i == j
  {
    WalkOwnPath(fs, rank, i);
    WalkOwnPath(fs, rank, j);
  }

  /** Where a walk ends is where lexical reduction of the same pieces points. */
  lemma {:induction false} WalkMatchesReduce(fs: Fs, rank: Rank, at: nat, parts: seq<Bytes>)
    requires Tree(fs, rank) && Live(fs, at) && AllNames(parts)
    requires Walk(fs, at, parts).Some?
    ensures Live(fs, Walk(fs, at, parts).value)
    ensures PathNames(fs, rank, Walk(fs, at, parts).value) == Reduce(PathNames(fs, rank, at), parts)
    decreases |parts|
  {
    hide Lists, SiblingsDiffer, IsPlainName;
    assert Hangs(fs, rank, at);
    if parts != [] {
      if parts[0] == HERE {
        WalkMatchesReduce(fs, rank, at, parts[1..]);
      } else if parts[0] == UP {
        var up := if at == ROOT_INODE then at else Get(fs, at).parent.value;
        WalkMatchesReduce(fs, rank, up, parts[1..]);
        var names := PathNames(fs, rank, at);
        assert PathNames(fs, rank, up) == if names == [] then names else names[..|names| - 1];
      } else {
        var c := Lookup(fs, at, parts[0]).value;
        LookupIsExact(fs, rank, at, parts[0], c);
        WalkMatchesReduce(fs, rank, c, parts[1..]);
      }
    }
  }

  /** `normalized_path`: the lexical path, relative to the current directory's own path. */
  ghost function NormalizedNames(fs: Fs, rank: Rank, path: Bytes): seq<Bytes>
    requires Tree(fs, rank)
  {
    Reduce(if StartsWithSlash(path) then [] else PathNames(fs, rank, fs.cwd), Parts(path))
  }

  lemma PartsAreNames(path: Bytes)
    ensures AllNames(Parts(path))
  {
    SplitPieces(path);
    NonEmptyPieces(Split(path));
  }

  lemma {:induction false} NonEmptyPieces(pieces: seq<Bytes>)
    requires forall i :: 0 <= i < |pieces| ==> SLASH !in pieces[i]
    ensures AllNames(NonEmpty(pieces))
  {
    if pieces != [] { NonEmptyPieces(pieces[1..]); }
  }

  /**
   Whenever a path resolves, its lexical normalisation is the path of the inode reached, so resolving
   the normalised path reaches the same inode.
   */
  lemma NormalizedResolvesAlike(fs: Fs, rank: Rank, path: Bytes)
    requires Tree(fs, rank) && Resolve(fs, path).Some?
    ensures var i := Resolve(fs, path).value;
            && Live(fs, i) && NormalizedNames(fs, rank, path) == PathNames(fs, rank, i)
            && Resolve(fs, Absolute(NormalizedNames(fs, rank, path))) == Some(i)
  {
    PartsAreNames(path);
    WalkMatchesReduce(fs, rank, if StartsWithSlash(path) then ROOT_INODE else fs.cwd, Parts(path));
    ResolveOwnPath(fs, rank, Resolve(fs, path).value);
  }

  /** Normalising a normalised path changes nothing. */
  lemma NormalizedIdempotent(fs: Fs, rank: Rank, path: Bytes)
    requires Tree(fs, rank)
    ensures var names := NormalizedNames(fs, rank, path);
            AllPlain(names) && NormalizedNames(fs, rank, Absolute(names)) == names
  {
    var start := if StartsWithSlash(path) then [] else PathNames(fs, rank, fs.cwd);
    PathNamesArePlain(fs, rank, fs.cwd);
    PartsAreNames(path);
    ReduceIsPlain(start, Parts(path));
    var names := NormalizedNames(fs, rank, path);
    AbsoluteLength(names);
    assert StartsWithSlash(Absolute(names));
    PartsOfAbsolute(names);
    ReducePlain([], names);
    assert [] + names == names;
  }

  // ---------------------------------------------------------------- changing the tree

  function Put(fs: Fs, i: nat, node: Node): Fs
    requires Live(fs, i)
  {
    fs.(nodes := fs.nodes[i - 1 := Some(node)])
  }

  /** `retain(|c| c != i)`. */
  function Unlist(children: seq<nat>, i: nat): seq<nat> {
    if children == [] then []
    else (if children[0] == i then [] else [children[0]]) + Unlist(children[1..], i)
  }

  ghost predicate AllDifferent(children: seq<nat>) {
    forall k, l :: 0 <= k < l < |children| ==> children[k] != children[l]
  }

  lemma {:induction false} UnlistExact(children: seq<nat>, i: nat)
    ensures forall c :: c in Unlist(children, i) <==> c in children && c != i
    ensures AllDifferent(children) ==> AllDifferent(Unlist(children, i))
  {
    if children != [] {
      UnlistExact(children[1..], i);
      var rest := Unlist(children[1..], i);
      assert forall c :: c in children <==> c == children[0] || c in children[1..];
      if AllDifferent(children) {
        assert AllDifferent(children[1..]) && children[0] !in children[1..];
        assert children[0] !in rest;
      }
    }
  }

  function NextInode(fs: Fs): nat { |fs.nodes| + 1 }

  /** `insert_node`, once its checks have passed. */
  function Insert(fs: Fs, parent: nat, name: Bytes, kind: FileType): Fs
    requires Live(fs, parent)
  {
    var added := fs.(nodes := fs.nodes + [Some(Node(name, kind, Some(parent), [], []))]);
    var dir := Get(fs, parent);
    Put(added, parent, dir.(children := dir.children + [NextInode(fs)]))
  }

  /** `remove_inode`, once its checks have passed. */
  function Erase(fs: Fs, i: nat): Fs
    requires Live(fs, i) && Get(fs, i).parent.Some? && Live(fs, Get(fs, i).parent.value)
  {
    var p := Get(fs, i).parent.value;
    var dir := Get(fs, p);
    var unlisted := Put(fs, p, dir.(children := Unlist(dir.children, i)));
    unlisted.(nodes := unlisted.nodes[i - 1 := None], cwd := if fs.cwd == i then ROOT_INODE else fs.cwd)
  }

  /** The three updates of `rename_path`, once its checks have passed. */
  function Move(fs: Fs, i: nat, newParent: nat, newName: Bytes): Fs
    requires Live(fs, i) && Live(fs, newParent) && Get(fs, i).parent.Some? && Live(fs, Get(fs, i).parent.value)
  {
    var p := Get(fs, i).parent.value;
    var a := Put(fs, p, Get(fs, p).(children := Unlist(Get(fs, p).children, i)));
    var b := Put(a, newParent, Get(a, newParent).(children := Get(a, newParent).children + [i]));
    Put(b, i, Get(b, i).(name := newName, parent := Some(newParent)))
  }

  /** Creating a node under a directory that has no child of its name keeps the tree. */
  lemma InsertKeepsTree(fs: Fs, rank: Rank, parent: nat, name: Bytes, kind: FileType)
    requires Tree(fs, rank) && Live(fs, parent) && Get(fs, parent).kind == Directory
    requires IsPlainName(name) && Lookup(fs, parent, name) == None
    ensures parent in rank
    ensures Tree(Insert(fs, parent, name, kind), rank[NextInode(fs) := rank[parent] + 1])
  {
    assert Hangs(fs, rank, parent);
    var after, r := Insert(fs, parent, name, kind), rank[NextInode(fs) := rank[parent] + 1];
    InsertGet(fs, parent, name, kind);
    InsertSiblings(fs, rank, parent, name, kind);
    hide Insert, IsPlainName, Hangs, Lists, SiblingsDiffer;
    forall i: nat | Live(after, i) ensures Hangs(after, r, i) {
      InsertHangs(fs, rank, parent, name, kind, i);
    }
    forall i: nat | Live(after, i) ensures Lists(after, i) {
      if i == NextInode(fs) { NewListsNothing(after, i); } else { InsertLists(fs, rank, parent, name, kind, i); }
    }
  }

  lemma InsertHangs(fs: Fs, rank: Rank, parent: nat, name: Bytes, kind: FileType, i: nat)
    requires Tree(fs, rank) && Live(fs, parent) && Get(fs, parent).kind == Directory && parent in rank && IsPlainName(name)
    requires Live(Insert(fs, parent, name, kind), i)
    ensures Hangs(Insert(fs, parent, name, kind), rank[NextInode(fs) := rank[parent] + 1], i)
  {
    InsertGet(fs, parent, name, kind);
    if i != NextInode(fs) { assert Hangs(fs, rank, i); }
    hide Insert, IsPlainName, Tree;
  }

  lemma NewListsNothing(fs: Fs, i: nat)
    requires Live(fs, i) && Get(fs, i).children == []
    ensures Lists(fs, i)
  {
  }

  lemma InsertSiblings(fs: Fs, rank: Rank, parent: nat, name: Bytes, kind: FileType)
    requires Tree(fs, rank) && Live(fs, parent) && Lookup(fs, parent, name) == None
    ensures SiblingsDiffer(Insert(fs, parent, name, kind))
  {
    InsertGet(fs, parent, name, kind);
    assert SiblingsDiffer(fs);
    forall i: nat | Live(fs, i) && i != ROOT_INODE && Get(fs, i).parent == Some(parent) ensures Get(fs, i).name != name {
      LookupIsExact(fs, rank, parent, name, i);
    }
    hide Insert, Tree, Lookup;
  }

  /** Which inodes a creation changes, and how. */
  lemma InsertGet(fs: Fs, parent: nat, name: Bytes, kind: FileType)
    requires Live(fs, parent)
    ensures var after := Insert(fs, parent, name, kind);
            && after.cwd == fs.cwd && Live(after, NextInode(fs))
            && Get(after, NextInode(fs)) == Node(name, kind, Some(parent), [], [])
            && (forall i: nat :: Live(after, i) <==> Live(fs, i) || i == NextInode(fs))
            && (forall i: nat | Live(fs, i) && i != parent :: Get(after, i) == Get(fs, i))
            && Get(after, parent) == Get(fs, parent).(children := Get(fs, parent).children + [NextInode(fs)])
  {
  }

  lemma InsertLists(fs: Fs, rank: Rank, parent: nat, name: Bytes, kind: FileType, i: nat)
    requires Tree(fs, rank) && Live(fs, parent) && Get(fs, parent).kind == Directory
    requires Live(fs, i)
    ensures Live(Insert(fs, parent, name, kind), i) && Lists(Insert(fs, parent, name, kind), i)
  {
    InsertGet(fs, parent, name, kind);
    hide Insert;
    var after := Insert(fs, parent, name, kind);
    assert Lists(fs, i);
    forall k | 0 <= k < |Get(after, i).children|
      ensures Live(after, Get(after, i).children[k]) && Get(after, Get(after, i).children[k]).parent == Some(i)
    {
      if k < |Get(fs, i).children| { assert Get(after, i).children[k] == Get(fs, i).children[k]; }
    }
  }

  /** Which inodes a removal changes, and how. */
  lemma EraseGet(fs: Fs, i: nat)
    requires Live(fs, i) && Get(fs, i).parent.Some? && Live(fs, Get(fs, i).parent.value) && Get(fs, i).parent.value != i
    ensures var after, p := Erase(fs, i), Get(fs, i).parent.value;
            && after.cwd == (if fs.cwd == i then ROOT_INODE else fs.cwd)
            && (forall j: nat :: Live(after, j) <==> Live(fs, j) && j != i)
            && (forall j: nat | Live(fs, j) && j != i && j != p :: Get(after, j) == Get(fs, j))
            && Get(after, p) == Get(fs, p).(children := Unlist(Get(fs, p).children, i))
  {
  }

  lemma EraseLists(fs: Fs, rank: Rank, i: nat, j: nat)
    requires Tree(fs, rank) && Live(fs, i) && i != ROOT_INODE && Live(fs, j) && j != i
    requires Get(fs, i).parent.Some? && Live(fs, Get(fs, i).parent.value) && Get(fs, i).parent.value != i
    ensures Live(Erase(fs, i), j) && Lists(Erase(fs, i), j)
  {
    var after, p := Erase(fs, i), Get(fs, i).parent.value;
    EraseGet(fs, i);
    UnlistExact(Get(fs, p).children, i);
    assert Lists(fs, j);
    hide Erase, Unlist, Hangs;
    forall k | 0 <= k < |Get(after, j).children|
      ensures Live(after, Get(after, j).children[k]) && Get(after, Get(after, j).children[k]).parent == Some(j)
    {
      var c := Get(after, j).children[k];
      assert c in Get(after, j).children;
      ListedChild(fs, rank, j, c);
    }
  }

  /** Removing a file or an empty directory keeps the tree. */
  lemma EraseKeepsTree(fs: Fs, rank: Rank, i: nat)
    requires Tree(fs, rank) && Live(fs, i) && i != ROOT_INODE && Get(fs, i).children == []
    ensures Get(fs, i).parent.Some? && Live(fs, Get(fs, i).parent.value)
    ensures Tree(Erase(fs, i), rank)
  {
    assert Hangs(fs, rank, i);
    var p := Get(fs, i).parent.value;
    EraseGet(fs, i);
    UnlistExact(Get(fs, p).children, i);
    forall j: nat | Live(fs, j) && j != i ensures Lists(Erase(fs, i), j) {
      EraseLists(fs, rank, i, j);
    }
    hide Erase, IsPlainName, Unlist, Lists;
    var after := Erase(fs, i);
    forall j: nat | Live(after, j)
      ensures Hangs(after, rank, j)
    {
      assert Hangs(fs, rank, j);
      if j != ROOT_INODE && Get(fs, j).parent.value == i { NoChildren(fs, i, j); }
    }
  }

  lemma NoChildren(fs: Fs, i: nat, j: nat)
    requires Live(fs, i) && Get(fs, i).children == []
    ensures j !in Get(fs, i).children
  {
  }

  /** `x` is `top` or lies below it. */
  ghost predicate InSubtree(fs: Fs, rank: Rank, x: nat, top: nat)
    requires Tree(fs, rank) && Live(fs, x)
    decreases if x in rank then rank[x] else 0
  {
    assert Hangs(fs, rank, x);
    x == top || (x != ROOT_INODE && InSubtree(fs, rank, Get(fs, x).parent.value, top))
  }

  /** Which inodes a move changes, and how. */
  lemma MoveGet(fs: Fs, i: nat, newParent: nat, newName: Bytes)
    requires Live(fs, i) && Live(fs, newParent) && Get(fs, i).parent.Some? && Live(fs, Get(fs, i).parent.value)
    ensures var after, p := Move(fs, i, newParent, newName), Get(fs, i).parent.value;
            && after.cwd == fs.cwd
            && (forall j: nat :: Live(after, j) <==> Live(fs, j))
            && (forall j: nat | Live(fs, j) :: Get(after, j).kind == Get(fs, j).kind && Get(after, j).data == Get(fs, j).data)
            && (forall j: nat | Live(fs, j) && j != i :: Get(after, j).parent == Get(fs, j).parent && Get(after, j).name == Get(fs, j).name)
            && Get(after, i).parent == Some(newParent) && Get(after, i).name == newName
            && (forall j: nat | Live(fs, j) :: Get(after, j).children ==
                  (if j == p then Unlist(Get(fs, j).children, i) else Get(fs, j).children)
                  + (if j == newParent then [i] else []))
  {
    var p := Get(fs, i).parent.value;
    var a := Put(fs, p, Get(fs, p).(children := Unlist(Get(fs, p).children, i)));
    PutGet(fs, p, Get(fs, p).(children := Unlist(Get(fs, p).children, i)));
    var b := Put(a, newParent, Get(a, newParent).(children := Get(a, newParent).children + [i]));
    PutGet(a, newParent, Get(a, newParent).(children := Get(a, newParent).children + [i]));
    PutGet(b, i, Get(b, i).(name := newName, parent := Some(newParent)));
    hide Put, Unlist, Live, Get;
  }

  /** ... seen at one inode. */
  lemma MoveGetAt(fs: Fs, i: nat, newParent: nat, newName: Bytes, j: nat)
    requires Live(fs, i) && Live(fs, newParent) && Get(fs, i).parent.Some? && Live(fs, Get(fs, i).parent.value) && Live(fs, j)
    ensures var after := Move(fs, i, newParent, newName);
            && Live(after, j) && Get(after, j).kind == Get(fs, j).kind
            && Get(after, j).parent == (if j == i then Some(newParent) else Get(fs, j).parent)
            && Get(after, j).children ==
               (if j == Get(fs, i).parent.value then Unlist(Get(fs, j).children, i) else Get(fs, j).children)
               + (if j == newParent then [i] else [])
  {
    MoveGet(fs, i, newParent, newName);
    hide Move, Unlist, Live, Get;
  }

  lemma PutGet(fs: Fs, i: nat, node: Node)
    requires Live(fs, i)
    ensures var after := Put(fs, i, node);
            && after.cwd == fs.cwd && (forall j: nat :: Live(after, j) <==> Live(fs, j))
            && (forall j: nat | Live(fs, j) :: Get(after, j) == if j == i then node else Get(fs, j))
  {
  }

  lemma MoveLists(fs: Fs, rank: Rank, i: nat, newParent: nat, newName: Bytes, j: nat)
    requires Tree(fs, rank) && Live(fs, i) && i != ROOT_INODE && Live(fs, newParent) && Live(fs, j)
    requires Get(fs, i).parent.Some? && Live(fs, Get(fs, i).parent.value)
    requires Get(fs, newParent).kind == Directory
    ensures Live(Move(fs, i, newParent, newName), j) && Lists(Move(fs, i, newParent, newName), j)
  {
    KeptChildren(fs, rank, i, j);
    MoveGetAt(fs, i, newParent, newName, j);
    hide Tree, Move, Unlist, Lists, AllDifferent, Live, Get;
    var after, p := Move(fs, i, newParent, newName), Get(fs, i).parent.value;
    var kept := if j == p then Unlist(Get(fs, j).children, i) else Get(fs, j).children;
    var extra := if j == newParent then [i] else [];
    DifferentAppend(kept, extra, i);
    forall c | c in kept + extra ensures Live(after, c) && Get(after, c).parent == Some(j) {
      assert c in kept || c == i;
      MoveGetAt(fs, i, newParent, newName, c);
    }
    ListsWhen(after, j, kept + extra);
  }

  lemma ListsWhen(fs: Fs, j: nat, children: seq<nat>)
    requires Live(fs, j) && Get(fs, j).children == children && AllDifferent(children)
    requires forall c :: c in children ==> Live(fs, c) && Get(fs, c).parent == Some(j)
    requires Get(fs, j).kind == File ==> children == []
    ensures Lists(fs, j)
  {
    hide Live, Get, AllDifferent;
    assert forall k :: 0 <= k < |children| ==> children[k] in children;
  }

  /** The children a directory is left with when `i` is taken out of its parent. */
  lemma KeptChildren(fs: Fs, rank: Rank, i: nat, j: nat)
    requires Tree(fs, rank) && Live(fs, i) && Live(fs, j) && Get(fs, i).parent.Some?
    ensures var kept := if j == Get(fs, i).parent.value then Unlist(Get(fs, j).children, i) else Get(fs, j).children;
            && AllDifferent(kept) && (Get(fs, j).kind == File ==> kept == [])
            && forall c :: c in kept ==> c != i && Live(fs, c) && Get(fs, c).parent == Some(j)
  {
    UnlistExact(Get(fs, j).children, i);
    assert Lists(fs, j);
    assert Get(fs, j).kind == File ==> Get(fs, j).children == [] && Unlist([], i) == [];
    forall c | c in Get(fs, j).children ensures Live(fs, c) && Get(fs, c).parent == Some(j) {
      ListedChild(fs, rank, j, c);
    }
    hide Tree, Lists, Unlist, AllDifferent;
  }

  lemma DifferentAppend(kept: seq<nat>, extra: seq<nat>, i: nat)
    requires AllDifferent(kept) && i !in kept && (extra == [] || extra == [i])
    ensures AllDifferent(kept + extra)
  {
  }

  /** Ranks after a move: the moved subtree is lifted above its new parent. */
  ghost function Lifted(fs: Fs, rank: Rank, i: nat, newParent: nat): Rank
    requires Tree(fs, rank) && newParent in rank
  {
    map x | x in rank :: if Live(fs, x) && InSubtree(fs, rank, x, i) then rank[x] + rank[newParent] + 1 else rank[x]
  }

  lemma MoveHangs(fs: Fs, rank: Rank, i: nat, newParent: nat, newName: Bytes, j: nat)
    requires Tree(fs, rank) && Live(fs, i) && i != ROOT_INODE && Live(fs, newParent) && Live(fs, j)
    requires Get(fs, i).parent.Some? && Live(fs, Get(fs, i).parent.value) && newParent in rank
    requires Get(fs, newParent).kind == Directory && !InSubtree(fs, rank, newParent, i) && IsPlainName(newName)
    ensures Live(Move(fs, i, newParent, newName), j)
    ensures Hangs(Move(fs, i, newParent, newName), Lifted(fs, rank, i, newParent), j)
  {
    var after, r := Move(fs, i, newParent, newName), Lifted(fs, rank, i, newParent);
    MoveGet(fs, i, newParent, newName);
    UnlistExact(Get(fs, Get(fs, i).parent.value).children, i);
    assert Hangs(fs, rank, j) && Hangs(fs, rank, newParent);
    hide Move, Unlist, IsPlainName, Lists, SiblingsDiffer;
    if j != ROOT_INODE && j != i {
      var q := Get(fs, j).parent.value;
      assert Hangs(fs, rank, q);
      assert InSubtree(fs, rank, j, i) <==> InSubtree(fs, rank, q, i);
      assert r[j] == (if InSubtree(fs, rank, j, i) then rank[j] + rank[newParent] + 1 else rank[j]);
      assert r[q] == (if InSubtree(fs, rank, q, i) then rank[q] + rank[newParent] + 1 else rank[q]);
      assert j in Get(after, q).children;
    } else if j == i {
      var all := Get(after, newParent).children;
      assert all[|all| - 1] == i;
    }
  }

  /** A move to a directory outside the moved subtree, under a name that is free there, keeps the tree. */
  lemma MoveKeepsTree(fs: Fs, rank: Rank, i: nat, newParent: nat, newName: Bytes)
    requires Tree(fs, rank) && Live(fs, i) && i != ROOT_INODE && Live(fs, newParent)
    requires IsPlainName(newName) && Lookup(fs, newParent, newName) == None
    requires Get(fs, newParent).kind == Directory && !InSubtree(fs, rank, newParent, i)
    ensures Get(fs, i).parent.Some? && Live(fs, Get(fs, i).parent.value) && newParent in rank
    ensures Tree(Move(fs, i, newParent, newName), Lifted(fs, rank, i, newParent))
  {
    assert Hangs(fs, rank, i) && Hangs(fs, rank, newParent) && Hangs(fs, rank, ROOT_INODE);
    var after, r := Move(fs, i, newParent, newName), Lifted(fs, rank, i, newParent);
    MoveGet(fs, i, newParent, newName);
    MoveSiblings(fs, rank, i, newParent, newName);
    hide Move, Lists, Hangs, IsPlainName, InSubtree, SiblingsDiffer, Lookup;
    forall j: nat | Live(fs, j) ensures Lists(after, j) {
      MoveLists(fs, rank, i, newParent, newName, j);
    }
    forall j: nat | Live(fs, j) ensures Hangs(after, r, j) {
      MoveHangs(fs, rank, i, newParent, newName, j);
    }
  }

  lemma MoveSiblings(fs: Fs, rank: Rank, i: nat, newParent: nat, newName: Bytes)
    requires Tree(fs, rank) && Live(fs, i) && i != ROOT_INODE && Live(fs, newParent)
    requires Get(fs, i).parent.Some? && Live(fs, Get(fs, i).parent.value)
    requires Lookup(fs, newParent, newName) == None
    ensures SiblingsDiffer(Move(fs, i, newParent, newName))
  {
    MoveGet(fs, i, newParent, newName);
    hide Move, Lists, Hangs, IsPlainName, Lookup;
    forall j: nat | Live(fs, j) && j != ROOT_INODE && Get(fs, j).parent == Some(newParent) ensures Get(fs, j).name != newName {
      LookupIsExact(fs, rank, newParent, newName, j);
    }
  }

  /** In any ranking of the tree after a move, what was below the moved inode is still above it. */
  lemma {:induction false} SubtreeStaysAbove(fs: Fs, rank: Rank, i: nat, newParent: nat, newName: Bytes, r: Rank, x: nat)
    requires Tree(fs, rank) && Live(fs, i) && i != ROOT_INODE && Live(fs, newParent) && Live(fs, x)
    requires Get(fs, i).parent.Some? && Live(fs, Get(fs, i).parent.value)
    requires Tree(Move(fs, i, newParent, newName), r) && InSubtree(fs, rank, x, i)
    ensures x in r && i in r && r[i] <= r[x]
    decreases if x in rank then rank[x] else 0
  {
    var after := Move(fs, i, newParent, newName);
    MoveGet(fs, i, newParent, newName);
    hide Move, Lists, SiblingsDiffer, IsPlainName;
    assert Hangs(fs, rank, x) && Hangs(after, r, x);
    if x != i { SubtreeStaysAbove(fs, rank, i, newParent, newName, r, Get(fs, x).parent.value); }
  }

  /**
   `rename_path` checks neither that the new parent is a directory nor that it lies outside the moved
   subtree. Its updates leave a tree exactly when both hold.
   */
  lemma MoveKeepsTreeExactlyWhen(fs: Fs, rank: Rank, i: nat, newParent: nat, newName: Bytes)
    requires Tree(fs, rank) && Live(fs, i) && i != ROOT_INODE && Live(fs, newParent)
    requires IsPlainName(newName) && Lookup(fs, newParent, newName) == None
    ensures Get(fs, i).parent.Some? && Live(fs, Get(fs, i).parent.value)
    ensures IsTree(Move(fs, i, newParent, newName))
       <==> Get(fs, newParent).kind == Directory && !InSubtree(fs, rank, newParent, i)
  {
    assert Hangs(fs, rank, i) && Hangs(fs, rank, newParent);
    var after := Move(fs, i, newParent, newName);
    if Get(fs, newParent).kind == Directory && !InSubtree(fs, rank, newParent, i) {
      MoveKeepsTree(fs, rank, i, newParent, newName);
    } else if IsTree(after) {
      var r :| Tree(after, r);
      MoveGet(fs, i, newParent, newName);
      hide Move, SiblingsDiffer, IsPlainName;
      assert Lists(after, newParent) && Hangs(after, r, i);
      assert i in Get(after, newParent).children;
      assert InSubtree(fs, rank, newParent, i);
      SubtreeStaysAbove(fs, rank, i, newParent, newName, r, newParent);
    }
  }

  /** Moving a directory into itself: /a becomes its own parent, and is a tree no more. */
  lemma MoveIntoItself()
    ensures var a: Bytes := [97];
            var fs := Fs([Some(Node(ROOT, Directory, None, [2], [])), Some(Node(a, Directory, Some(1), [], []))], 1);
            Tree(fs, map[1 := 0, 2 := 1]) && !IsTree(Move(fs, 2, 2, a))
  {
    var a: Bytes := [97];
    var fs := Fs([Some(Node(ROOT, Directory, None, [2], [])), Some(Node(a, Directory, Some(1), [], []))], 1);
    var rank := map[1 := 0, 2 := 1];
    assert Hangs(fs, rank, 1) && Hangs(fs, rank, 2) && Lists(fs, 1) && Lists(fs, 2);
    assert InSubtree(fs, rank, 2, 2);
    MoveKeepsTreeExactlyWhen(fs, rank, 2, 2, a);
  }
}
