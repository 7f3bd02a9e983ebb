/**
 The in-memory filesystem in place: its loops and updates, each proved against
 the functions of `TmpFs`.
 */
module MemFs {
  import opened Machine
  import opened Paths
  import opened TmpFs

  function Start(fs: Fs, path: Bytes): nat { if StartsWithSlash(path) then ROOT_INODE else fs.cwd }

  /** `resolve_parent_and_name`: the directory part is walked, the last piece must be a plain name. */
  function ParentAndName(fs: Fs, path: Bytes): Result<(nat, Bytes), FsError> {
    var parts := Parts(path);
    if parts == [] then Err(MissingName)
    else
      var name := parts[|parts| - 1];
      if name == HERE || name == UP then Err(InvalidName)
      else
        match Walk(fs, Start(fs, path), parts[..|parts| - 1])
        case None => Err(PathNotFound)
        case Some(p) => Ok((p, name))
  }

  /** Pieces joined by slashes. */
  function Join(parts: seq<Bytes>): Bytes { if parts == [] then [] else Render(parts)[1..] }

  /** Splitting joined names gives the names back, so re-reading the parent path walks the same pieces. */
  lemma PartsOfJoin(parts: seq<Bytes>)
    requires AllNames(parts) && parts != []
    ensures Parts(Join(parts)) == parts && Join(parts) != [] && Join(parts)[0] != SLASH
  {
    SplitRender(parts);
    AbsoluteLength(parts);
    var joined := Join(parts);
    assert Render(parts) == [SLASH] + joined;
    AfterSlash(joined);
    DropFirst([], Split(joined), parts, []);
    assert Split(joined) + [] == Split(joined);
    NonEmptyNames(parts);
    assert IsName(parts[0]) && joined[0] == parts[0][0];
  }

  /** Whether a node can be created at a path. */
  ghost predicate CanCreate(fs: Fs, path: Bytes) {
    ParentAndName(fs, path).Ok? &&
    var (p, name) := ParentAndName(fs, path).value;
    Live(fs, p) && Get(fs, p).kind == Directory && Lookup(fs, p, name).None?
  }

  ghost function Created(fs: Fs, path: Bytes, kind: FileType): Fs
    requires CanCreate(fs, path)
  {
    var (p, name) := ParentAndName(fs, path).value;
    Insert(fs, p, name, kind)
  }

  /** Walks that succeeded before a node was added still lead to the same place. */
  lemma {:induction false} WalkAfterInsert(fs: Fs, rank: Rank, after: Fs, rank': Rank, parent: nat, name: Bytes, kind: FileType,
                                           at: nat, parts: seq<Bytes>)
    requires Tree(fs, rank) && Live(fs, parent) && after == Insert(fs, parent, name, kind) && Tree(after, rank')
    requires Live(fs, at) && AllNames(parts) && Walk(fs, at, parts).Some?
    ensures Walk(after, at, parts) == Walk(fs, at, parts)
    decreases |parts|
  {
    if parts != [] {
      InsertGet(fs, parent, name, kind);
      hide Tree, Insert;
      WalkMatchesReduce(fs, rank, at, parts);
      if parts[0] == HERE {
        WalkAfterInsert(fs, rank, after, rank', parent, name, kind, at, parts[1..]);
      } else if parts[0] == UP {
        var up := Get(fs, at).parent;
        ParentIsLive(fs, rank, at);
        WalkAfterInsert(fs, rank, after, rank', parent, name, kind, if up.Some? then up.value else at, parts[1..]);
      } else {
        var c := Lookup(fs, at, parts[0]).value;
        LookupIsExact(fs, rank, at, parts[0], c);
        LookupIsExact(after, rank', at, parts[0], c);
        WalkAfterInsert(fs, rank, after, rank', parent, name, kind, c, parts[1..]);
      }
    }
  }

  lemma ParentIsLive(fs: Fs, rank: Rank, i: nat)
    requires Tree(fs, rank) && Live(fs, i)
    ensures Get(fs, i).parent.Some? ==> Live(fs, Get(fs, i).parent.value)
  {
    assert Hangs(fs, rank, i);
  }

  /** A node created at a path is what the path then resolves to. */
  lemma CreatedResolves(fs: Fs, rank: Rank, path: Bytes, kind: FileType)
    requires Tree(fs, rank) && CanCreate(fs, path)
    ensures Resolve(Created(fs, path, kind), path) == Some(NextInode(fs))
  {
    hide Tree, Parts, Insert, Walk, Lookup, IsPlainName, AllNames;
    var (p, name) := ParentAndName(fs, path).value;
    var parts := Parts(path);
    PartsAreNames(path);
    NameIsPlain(fs, path);
    StartIsLive(fs, rank, path);
    InsertKeepsTree(fs, rank, p, name, kind);
    InsertGet(fs, p, name, kind);
    var after := Created(fs, path, kind);
    var rank' := rank[NextInode(fs) := rank[p] + 1];
    var init := parts[..|parts| - 1];
    FirstNames(parts);
    WalkAfterInsert(fs, rank, after, rank', p, name, kind, Start(fs, path), init);
    assert init + [name] == parts;
    WalkAppend(after, Start(fs, path), init, [name]);
    LookupIsExact(after, rank', p, name, NextInode(fs));
    WalkOne(after, p, name);
  }

  lemma FirstNames(parts: seq<Bytes>)
    requires AllNames(parts) && parts != []
    ensures AllNames(parts[..|parts| - 1])
  {
  }

  lemma WalkOne(fs: Fs, at: nat, name: Bytes)
    requires name != HERE && name != UP
    ensures Walk(fs, at, [name]) == Lookup(fs, at, name)
  {
    hide Lookup;
    assert [name][1..] == [];
  }

  lemma StartIsLive(fs: Fs, rank: Rank, path: Bytes)
    requires Tree(fs, rank)
    ensures Live(fs, Start(fs, path))
  {
  }

  /** The last piece of a path, if it is not a dot name, can be given to a node. */
  lemma NameIsPlain(fs: Fs, path: Bytes)
    requires Parts(path) != []
    ensures var name := Parts(path)[|Parts(path)| - 1]; name != HERE && name != UP ==> IsPlainName(name)
  {
    PartsAreNames(path);
  }

  lemma AbsoluteStarts(names: seq<Bytes>)
    requires AllNames(names)
    ensures StartsWithSlash(Absolute(names))
  {
    AbsoluteLength(names);
  }

  lemma WalkNothing(fs: Fs, at: nat)
    ensures Walk(fs, at, []) == Some(at)
  {
  }

  lemma PutDataGet(fs: Fs, i: nat, data: seq<Byte>)
    requires Live(fs, i)
    ensures var after := Put(fs, i, Get(fs, i).(data := data));
            && after.cwd == fs.cwd && (forall j: nat :: Live(after, j) <==> Live(fs, j))
            && (forall j: nat | Live(fs, j) :: Get(after, j) == if j == i then Get(fs, i).(data := data) else Get(fs, j))
  {
  }

  /** Changing only a file's data keeps the tree. */
  lemma DataKeepsTree(fs: Fs, rank: Rank, i: nat, data: seq<Byte>)
    requires Tree(fs, rank) && Live(fs, i)
    ensures Tree(Put(fs, i, Get(fs, i).(data := data)), rank)
  {
    var after := Put(fs, i, Get(fs, i).(data := data));
    PutDataGet(fs, i, data);
    hide Put, IsPlainName, AllDifferent, Live, Get;
    forall j: nat | Live(after, j) ensures Hangs(after, rank, j) { assert Hangs(fs, rank, j); }
    forall j: nat | Live(after, j) ensures Lists(after, j) { assert Lists(fs, j); }
  }

  class TmpFileSystem {
    var nodes: seq<Option<Node>>
    var cwd: nat
    ghost var rank: Rank

    ghost function State(): Fs
      reads this
    {
      Fs(nodes, cwd)
    }

    ghost predicate Valid()
      reads this
    {
      Tree(State(), rank)
    }

    constructor ()
      ensures Valid() && nodes == [Some(Node(ROOT, Directory, None, [], []))] && cwd == ROOT_INODE
    {
      nodes := [Some(Node(ROOT, Directory, None, [], []))];
      cwd, rank := ROOT_INODE, map[ROOT_INODE := 0];
      new;
      assert Hangs(State(), rank, 1) && Lists(State(), 1);
    }

    method LookupChild(dir: nat, name: Bytes) returns (r: Option<nat>)
      ensures r == Lookup(State(), dir, name)
    {
      if dir < 1 || dir > |nodes| || nodes[dir - 1].None? { return None; }
      var node := nodes[dir - 1].value;
      if node.kind != Directory { return None; }
      for k := 0 to |node.children|
        invariant FindChild(State(), node.children, name) == FindChild(State(), node.children[k..], name)
      {
        var c := node.children[k];
        assert node.children[k..][0] == c && node.children[k..][1..] == node.children[k + 1..];
        if 1 <= c <= |nodes| && nodes[c - 1].Some? && nodes[c - 1].value.name == name { return Some(c); }
      }
      assert node.children[|node.children|..] == [];
      return None;
    }

    /** `resolve_from`, from the current directory. */
    method ResolvePath(path: Bytes) returns (r: Result<nat, FsError>)
      requires Valid()
      ensures r == match Resolve(State(), path) case None => Err(PathNotFound) case Some(i) => Ok(i)
      ensures r.Ok? ==> Live(State(), r.value)
    {
      PartsAreNames(path);
      if path == ROOT {
        PartsOfAbsolute([]);
        return Ok(ROOT_INODE);
      }
      var current: nat := if path != [] && path[0] == SLASH then ROOT_INODE else cwd;
      var parts := Parts(path);
      for k := 0 to |parts|
        invariant Live(State(), current)
        invariant Resolve(State(), path) == Walk(State(), current, parts[k..])
      {
        ghost var left := parts[k..];
        assert left[0] == parts[k] && left[1..] == parts[k + 1..];
        if parts[k] == HERE {
        } else if parts[k] == UP {
          assert Hangs(State(), rank, current);
          var parent := nodes[current - 1].value.parent;
          if parent.Some? { current := parent.value; }
        } else {
          var child := LookupChild(current, parts[k]);
          if child.None? { return Err(PathNotFound); }
          LookupIsExact(State(), rank, current, parts[k], child.value);
          current := child.value;
        }
      }
      assert parts[|parts|..] == [];
      return Ok(current);
    }

    method ResolveParentAndName(path: Bytes) returns (r: Result<(nat, Bytes), FsError>)
      requires Valid()
      ensures r == ParentAndName(State(), path)
      ensures r.Ok? ==> Live(State(), r.value.0) && IsPlainName(r.value.1)
    {
      PartsAreNames(path);
      assert Live(State(), cwd);
      hide Tree, Parts, Render, Walk, Lookup, IsName;
      var parts := Parts(path);
      if parts == [] { return Err(MissingName); }
      NameIsPlain(State(), path);
      var name := parts[|parts| - 1];
      parts := parts[..|parts| - 1];
      if name == HERE || name == UP { return Err(InvalidName); }
      var parentPath := if path != [] && path[0] == SLASH then Absolute(parts) else Join(parts);
      var parent := cwd;
      AbsoluteStarts(parts);
      PartsOfAbsolute(parts);
      if parts == [] { WalkNothing(State(), cwd); } else { PartsOfJoin(parts); }
      if parentPath != [] {
        var found := ResolvePath(parentPath);
        if found.Err? { return Err(found.error); }
        parent := found.value;
      }
      return Ok((parent, name));
    }

    /** `insert_node`. */
    method InsertNode(parent: nat, name: Bytes, kind: FileType) returns (r: Result<nat, FsError>)
      requires Valid() && Live(State(), parent) && IsPlainName(name)
      modifies this
      ensures Valid()
      ensures r == if Get(old(State()), parent).kind != Directory then Err(ParentNotDirectory)
                   else if Lookup(old(State()), parent, name).Some? then Err(AlreadyExists)
                   else Ok(NextInode(old(State())))
      ensures State() == if r.Ok? then Insert(old(State()), parent, name, kind) else old(State())
    {
      if nodes[parent - 1].value.kind != Directory { return Err(ParentNotDirectory); }
      var existing := LookupChild(parent, name);
      if existing.Some? { return Err(AlreadyExists); }
      InsertKeepsTree(State(), rank, parent, name, kind);
      hide Tree;
      var inode := |nodes| + 1;
      nodes := nodes + [Some(Node(name, kind, Some(parent), [], []))];
      var dir := nodes[parent - 1].value;
      nodes := nodes[parent - 1 := Some(dir.(children := dir.children + [inode]))];
      rank := rank[inode := rank[parent] + 1];
      return Ok(inode);
    }

    /** `create` and `mkdir`. */
    method CreateNode(path: Bytes, kind: FileType) returns (r: Result<nat, FsError>)
      requires Valid()
      modifies this
      ensures Valid()
      ensures r.Err? ==> State() == old(State())
      ensures match ParentAndName(old(State()), path)
              case Err(e) => r == Err(e)
              case Ok((p, name)) =>
                && Live(old(State()), p)
                && (r.Ok? <==> Get(old(State()), p).kind == Directory && Lookup(old(State()), p, name).None?)
                && (r.Ok? ==> r.value == NextInode(old(State())) && State() == Insert(old(State()), p, name, kind))
      ensures r.Ok? ==> Resolve(State(), path) == Some(r.value)
    {
      hide Tree, Parts, Walk, Insert, Lookup, ParentAndName;
      ghost var rank0 := rank;
      var where_ := ResolveParentAndName(path);
      if where_.Err? { return Err(where_.error); }
      r := InsertNode(where_.value.0, where_.value.1, kind);
      if r.Ok? { CreatedResolves(old(State()), rank0, path, kind); }
    }

    method RetainOthers(children: seq<nat>, i: nat) returns (kept: seq<nat>)
      ensures kept == Unlist(children, i)
    {
      kept := [];
      for k := 0 to |children|
        invariant Unlist(children, i) == kept + Unlist(children[k..], i)
      {
        assert children[k..][0] == children[k] && children[k..][1..] == children[k + 1..];
        ghost var rest := Unlist(children[k + 1..], i);
        assert Unlist(children[k..], i) == if children[k] == i then rest else [children[k]] + rest;
        hide Unlist;
        if children[k] != i {
          assert kept + ([children[k]] + rest) == (kept + [children[k]]) + rest;
          kept := kept + [children[k]];
        }
      }
      assert children[|children|..] == [];
    }

    /** `remove_inode`: refuses the root and non-empty directories. */
    method RemoveInode(i: nat) returns (r: Result<(), FsError>)
      requires Valid() && Live(State(), i)
      modifies this
      ensures Valid()
      ensures r == if i == ROOT_INODE then Err(CannotRemoveRoot)
                   else if Get(old(State()), i).children != [] then Err(DirectoryNotEmpty)
                   else Ok(())
      ensures r.Err? ==> State() == old(State())
      ensures r.Ok? ==>
                && Get(old(State()), i).parent.Some? && Live(old(State()), Get(old(State()), i).parent.value)
                && State() == Erase(old(State()), i)
    {
      if i == ROOT_INODE { return Err(CannotRemoveRoot); }
      var node := nodes[i - 1].value;
      assert Lists(State(), i);
      if node.kind == Directory && node.children != [] { return Err(DirectoryNotEmpty); }
      EraseKeepsTree(State(), rank, i);
      hide Tree, Unlist;
      var p := node.parent.value;
      var dir := nodes[p - 1].value;
      var kept := RetainOthers(dir.children, i);
      nodes := nodes[p - 1 := Some(dir.(children := kept))];
      nodes := nodes[i - 1 := None];
      if cwd == i { cwd := ROOT_INODE; }
      return Ok(());
    }

    method Remove(path: Bytes) returns (r: Result<nat, FsError>)
      requires Valid()
      modifies this
      ensures Valid()
      ensures r.Err? ==> State() == old(State())
      ensures r.Ok? ==>
                && Resolve(old(State()), path) == Some(r.value)
                && Live(old(State()), r.value)
                && Get(old(State()), r.value).parent.Some? && Live(old(State()), Get(old(State()), r.value).parent.value)
                && State() == Erase(old(State()), r.value)
      ensures r.Err? <==>
                || Resolve(old(State()), path).None?
                || Resolve(old(State()), path) == Some(ROOT_INODE)
                || (Live(old(State()), Resolve(old(State()), path).value)
                    && Get(old(State()), Resolve(old(State()), path).value).children != [])
    {
      var i := ResolvePath(path);
      if i.Err? { return Err(i.error); }
      var removed := RemoveInode(i.value);
      if removed.Err? { return Err(removed.error); }
      return Ok(i.value);
    }

    /** `path_for_inode`: the loop up the parent links ends, with the inode's path. */
    method PathForInode(i: nat) returns (path: Bytes)
      requires Valid()
      ensures path == if Live(State(), i) then Absolute(PathNames(State(), rank, i)) else ROOT
    {
      if i == ROOT_INODE { return ROOT; }
      if i < 1 || i > |nodes| || nodes[i - 1].None? { return ROOT; }
      var parts: seq<Bytes> := [];
      var current := i;
      while true
        invariant Live(State(), current) && current != ROOT_INODE
        invariant PathNames(State(), rank, i) == PathNames(State(), rank, current) + parts
        decreases if current in rank then rank[current] else 0
      {
        assert Hangs(State(), rank, current);
        var node := nodes[current - 1].value;
        parts := [node.name] + parts;
        current := node.parent.value;
        assert Hangs(State(), rank, current);
        if current == ROOT_INODE { break; }
      }
      return [SLASH] + Join(parts);
    }

    /** `normalized_path`: purely lexical, on top of the current directory's path. */
    method NormalizedPath(path: Bytes) returns (r: Bytes)
      requires Valid()
      ensures r == Absolute(NormalizedNames(State(), rank, path))
    {
      var parts: seq<Bytes> := [];
      if !(path != [] && path[0] == SLASH) {
        var cwdPath := PathForInode(cwd);
        PathNamesArePlain(State(), rank, cwd);
        PartsOfAbsolute(PathNames(State(), rank, cwd));
        parts := Parts(cwdPath);
      }
      parts := ReducePieces(parts, Parts(path));
      return if parts == [] then ROOT else [SLASH] + Join(parts);
    }

    /** Moving `i` below `newParent` is safe: a directory outside the moved subtree. */
    ghost predicate SafeMove(i: nat, newParent: nat)
      requires Valid() && Live(State(), newParent)
      reads this
    {
      Get(State(), newParent).kind == Directory && !InSubtree(State(), rank, newParent, i)
    }

    /**
     `rename_path`: on success the inode has its new name and parent and nothing else about the nodes
     changes; the result is a tree exactly when the move was safe.
     */
    method RenamePath(from: Bytes, to: Bytes) returns (r: Result<(), FsError>, ghost i: nat, ghost newParent: nat)
      requires Valid()
      modifies this
      ensures r.Err? ==> State() == old(State()) && Valid()
      ensures r.Ok? ==>
                && Resolve(old(State()), from) == Some(i) && i != ROOT_INODE
                && ParentAndName(old(State()), to).Ok? && ParentAndName(old(State()), to).value.0 == newParent
                && Lookup(old(State()), newParent, ParentAndName(old(State()), to).value.1).None?
                && Live(old(State()), i) && Live(old(State()), newParent)
                && Get(old(State()), i).parent.Some? && Live(old(State()), Get(old(State()), i).parent.value)
                && State() == Move(old(State()), i, newParent, ParentAndName(old(State()), to).value.1)
                && (old(SafeMove(i, newParent)) ==> Valid())
                && (IsTree(State()) <==> old(SafeMove(i, newParent)))
      ensures r.Err? <==>
                || Resolve(old(State()), from).None? || Resolve(old(State()), from) == Some(ROOT_INODE)
                || ParentAndName(old(State()), to).Err?
                || Lookup(old(State()), ParentAndName(old(State()), to).value.0, ParentAndName(old(State()), to).value.1).Some?
    {
      hide Parts, Walk, Lookup, Tree, InSubtree, IsPlainName, Move;
      i, newParent := 0, 0;
      var found := ResolvePath(from);
      if found.Err? { return Err(found.error), i, newParent; }
      if found.value == ROOT_INODE { return Err(CannotRenameRoot), i, newParent; }
      var dest := ResolveParentAndName(to);
      if dest.Err? { return Err(dest.error), i, newParent; }
      var (parent, name) := dest.value;
      var existing := LookupChild(parent, name);
      if existing.Some? { return Err(DestinationExists), i, newParent; }
      i, newParent := found.value, parent;
      MoveKeepsTreeExactlyWhen(State(), rank, found.value, parent, name);
      ghost var lifted := rank;
      if SafeMove(i, newParent) {
        MoveKeepsTree(State(), rank, found.value, parent, name);
        lifted := Lifted(State(), rank, i, newParent);
      }
      Relink(found.value, parent, name);
      rank := lifted;
      return Ok(()), i, newParent;
    }

    /** The three node updates of a rename. */
    method Relink(i: nat, newParent: nat, newName: Bytes)
      requires Live(State(), i) && Live(State(), newParent)
      requires Get(State(), i).parent.Some? && Live(State(), Get(State(), i).parent.value)
      modifies this`nodes
      ensures State() == Move(old(State()), i, newParent, newName)
    {
      var oldParent := nodes[i - 1].value.parent.value;
      var dir := nodes[oldParent - 1].value;
      var kept := RetainOthers(dir.children, i);
      nodes := nodes[oldParent - 1 := Some(dir.(children := kept))];
      var target := nodes[newParent - 1].value;
      nodes := nodes[newParent - 1 := Some(target.(children := target.children + [i]))];
      var node := nodes[i - 1].value;
      nodes := nodes[i - 1 := Some(node.(name := newName, parent := Some(newParent)))];
    }

    /** `cd`. */
    method ChangeDirectory(path: Bytes) returns (r: Result<(), FsError>)
      requires Valid()
      modifies this`cwd
      ensures Valid()
      ensures r.Err? ==> cwd == old(cwd)
      ensures r.Ok? ==> Resolve(old(State()), path) == Some(cwd)
      ensures r.Ok? <==> (
        var i := Resolve(old(State()), path);
        i.Some? && Live(old(State()), i.value) && Get(old(State()), i.value).kind == Directory)
    {
      var i := ResolvePath(path);
      if i.Err? { return Err(i.error); }
      if nodes[i.value - 1].value.kind != Directory { return Err(NotADirectory); }
      CwdKeepsTree(State(), rank, i.value);
      cwd := i.value;
      return Ok(());
    }

    /** The bytes of a live file. */
    ghost function Data(i: nat): seq<Byte>
      requires Live(State(), i)
      reads this
    {
      Get(State(), i).data
    }

    predicate IsFile(i: nat)
      reads this
    {
      1 <= i <= |nodes| && nodes[i - 1].Some? && nodes[i - 1].value.kind == File
    }

    /** Replaces the data of a file and nothing else. */
    method SetData(i: nat, data: seq<Byte>)
      requires Valid() && IsFile(i)
      modifies this`nodes
      ensures Valid() && State() == Put(old(State()), i, Get(old(State()), i).(data := data))
    {
      DataKeepsTree(State(), rank, i, data);
      nodes := nodes[i - 1 := Some(nodes[i - 1].value.(data := data))];
    }
  }

  lemma CwdKeepsTree(fs: Fs, rank: Rank, i: nat)
    requires Tree(fs, rank) && Live(fs, i) && Get(fs, i).kind == Directory
    ensures Tree(fs.(cwd := i), rank)
  {
    var after := fs.(cwd := i);
    assert after.nodes == fs.nodes;
    assert forall j: nat :: Live(after, j) == Live(fs, j);
    assert forall j: nat | Live(fs, j) :: Get(after, j) == Get(fs, j);
    hide IsPlainName, AllDifferent, Live, Get;
    forall j: nat | Live(after, j) ensures Hangs(after, rank, j) { assert Hangs(fs, rank, j); }
    forall j: nat | Live(after, j) ensures Lists(after, j) { assert Lists(fs, j); }
  }
}
