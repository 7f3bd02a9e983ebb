/** A mounted volume's tree, changed in place by the file operations. */
module MountedTree {
  import opened Machine
  import opened Paths
  import opened StorageCodec
  import opened StorageTree

  // ---------------------------------------------------------------- outcomes: the new tree, or the refusal

  function CreateOutcome(nodes: seq<FsNode>, rel: Bytes, kind: FsNodeKind): Result<seq<FsNode>, TreeError> {
    if IndexOf(nodes, rel).Some? then Err(AlreadyExists)
    else
      match ParentCheck(nodes, rel)
      case Err(e) => Err(e)
      case Ok(_) => Ok(nodes + [FsNode(rel, kind, [])])
  }

  function WriteOutcome(nodes: seq<FsNode>, rel: Bytes, data: Bytes): Result<seq<FsNode>, TreeError> {
    match IndexOf(nodes, rel)
    case None =>
      (match ParentCheck(nodes, rel)
       case Err(e) => Err(e)
       case Ok(_) => Ok(nodes + [FsNode(rel, FileNode, data)]))
    case Some(at) => if nodes[at].kind == FileNode then Ok(nodes[at := nodes[at].(data := data)]) else Err(NotAFile)
  }

  function DeleteOutcome(nodes: seq<FsNode>, rel: Bytes): Result<seq<FsNode>, TreeError> {
    if rel == ROOT then Err(CannotRemoveRoot)
    else
      match IndexOf(nodes, rel)
      case None => Err(PathNotFound)
      case Some(at) =>
        if nodes[at].kind == DirectoryNode && !NothingBelow(nodes, rel) then Err(NotEmpty) else Ok(Without(nodes, at))
  }

  function RenameOutcome(nodes: seq<FsNode>, from: Bytes, to: Bytes): Result<seq<FsNode>, TreeError> {
    if ParentCheck(nodes, to).Err? then Err(ParentCheck(nodes, to).error)
    else if IndexOf(nodes, to).Some? then Err(DestinationExists)
    else
      match IndexOf(nodes, from)
      case None => Err(PathNotFound)
      case Some(at) => Ok(Renamed(nodes, at, to))
  }

  /** After a write the path has a file with exactly that data; every other path has what it had. */
  lemma WrittenIsFound(nodes: seq<FsNode>, rel: Bytes, data: Bytes, other: Bytes)
    requires WriteOutcome(nodes, rel, data).Ok? && other != rel
    ensures var now := WriteOutcome(nodes, rel, data).value;
            && IndexOf(now, rel).Some? && now[IndexOf(now, rel).value] == FsNode(rel, FileNode, data)
            && IndexOf(now, other) == IndexOf(nodes, other)
            && (IndexOf(nodes, other).Some? ==> now[IndexOf(now, other).value] == nodes[IndexOf(nodes, other).value])
  {
    hide ParentCheck, IndexOf;
    if IndexOf(nodes, rel).None? {
      AppendedIsFound(nodes, FsNode(rel, FileNode, data), other);
    } else {
      ReplacedIsFound(nodes, IndexOf(nodes, rel).value, data, other);
    }
  }

  lemma {:induction false} AppendedIsFound(nodes: seq<FsNode>, n: FsNode, other: Bytes)
    requires IndexOf(nodes, n.path).None? && other != n.path
    ensures IndexOf(nodes + [n], n.path) == Some(|nodes|) && IndexOf(nodes + [n], other) == IndexOf(nodes, other)
  {
    hide IndexOf;
    FirstIsUnique(nodes + [n], n.path, |nodes|);
    var at := IndexOf(nodes, other);
    if at.Some? { FirstIsUnique(nodes + [n], other, at.value); }
    assert forall j :: 0 <= j < |nodes| ==> (nodes + [n])[j] == nodes[j];
  }

  lemma {:induction false} ReplacedIsFound(nodes: seq<FsNode>, at: nat, data: Bytes, other: Bytes)
    requires at < |nodes| && IndexOf(nodes, nodes[at].path) == Some(at) && other != nodes[at].path
    ensures var now := nodes[at := nodes[at].(data := data)];
            IndexOf(now, nodes[at].path) == Some(at) && IndexOf(now, other) == IndexOf(nodes, other)
  {
    hide IndexOf;
    var now := nodes[at := nodes[at].(data := data)];
    assert forall j :: 0 <= j < |nodes| ==> now[j].path == nodes[j].path;
    FirstIsUnique(now, nodes[at].path, at);
    var o := IndexOf(nodes, other);
    if o.Some? { FirstIsUnique(now, other, o.value); }
  }

  lemma {:induction false} FirstIsUnique(nodes: seq<FsNode>, path: Bytes, at: nat)
    requires at < |nodes| && nodes[at].path == path && forall j :: 0 <= j < at ==> nodes[j].path != path
    ensures IndexOf(nodes, path) == Some(at)
  {
    hide IndexOf;
    assert nodes[at].path == path;
  }

  class MountedFs {
    const volume: Bytes
    var nodes: seq<FsNode>

    constructor (volume: Bytes, nodes: seq<FsNode>)
      ensures this.volume == volume && this.nodes == nodes
    {
      this.volume, this.nodes := volume, nodes;
    }

    /** The body of `fs_create` and `fs_mkdir`; `rel` comes normalised from the mount lookup. */
    method Create(rel: Bytes, kind: FsNodeKind) returns (r: Result<(), TreeError>)
      requires Normal(rel) == rel
      modifies this`nodes
      ensures r == (if IndexOf(old(nodes), rel).Some? then Err(AlreadyExists) else ParentCheck(old(nodes), rel))
      ensures nodes == if r.Ok? then old(nodes) + [FsNode(rel, kind, [])] else old(nodes)
      ensures old(IsTree(nodes)) ==> IsTree(nodes)
    {
      hide Names, Normal, ParentCheck, IsTree;
      if IndexOf(nodes, rel).Some? { return Err(AlreadyExists); }
      r := ParentCheck(nodes, rel);
      if r.Err? { return; }
      if IsTree(nodes) { CreateKeepsTree(nodes, FsNode(rel, kind, [])); }
      nodes := nodes + [FsNode(rel, kind, [])];
    }

    /** The body of `fs_write`: the whole contents are replaced, and a missing file is created first. */
    method Write(rel: Bytes, data: Bytes) returns (r: Result<(), TreeError>)
      requires Normal(rel) == rel
      modifies this`nodes
      ensures var at := IndexOf(old(nodes), rel);
              r == if at.None? then ParentCheck(old(nodes), rel)
                   else if old(nodes)[at.value].kind == FileNode then Ok(()) else Err(NotAFile)
      ensures var at := IndexOf(old(nodes), rel);
              nodes == if r.Err? then old(nodes)
                       else if at.None? then old(nodes) + [FsNode(rel, FileNode, data)]
                       else old(nodes)[at.value := old(nodes)[at.value].(data := data)]
      ensures old(IsTree(nodes)) ==> IsTree(nodes)
    {
      hide Names, Normal, ParentCheck, IsTree;
      ghost var before := nodes;
      r := Ok(());
      if IndexOf(nodes, rel).None? {
        r := ParentCheck(nodes, rel);
        if r.Err? { return; }
        if IsTree(nodes) { CreateKeepsTree(nodes, FsNode(rel, FileNode, [])); }
        nodes := nodes + [FsNode(rel, FileNode, [])];
        assert nodes[|before|].path == rel && forall j :: 0 <= j < |before| ==> nodes[j].path != rel;
      }
      var at := IndexOf(nodes, rel).value;
      if nodes[at].kind != FileNode { return Err(NotAFile); }
      if IsTree(nodes) { DataKeepsTree(nodes, at, data); }
      nodes := nodes[at := nodes[at].(data := data)];
    }

    /** The search of `fs_delete` for anything below a directory. */
    method AnyBelow(rel: Bytes) returns (found: bool)
      ensures found <==> !NothingBelow(nodes, rel)
    {
      hide IsChildOf;
      for i := 0 to |nodes|
        invariant forall k :: 0 <= k < i && nodes[k].path != rel ==> !IsChildOf(rel, nodes[k].path)
      {
        if nodes[i].path != rel && IsChildOf(rel, nodes[i].path) { return true; }
      }
      return false;
    }

    /** The body of `fs_delete`. */
    method Delete(rel: Bytes) returns (r: Result<(), TreeError>)
      requires Normal(rel) == rel
      modifies this`nodes
      ensures var at := IndexOf(old(nodes), rel);
              r == if rel == ROOT then Err(CannotRemoveRoot)
                   else if at.None? then Err(PathNotFound)
                   else if old(nodes)[at.value].kind == DirectoryNode && !NothingBelow(old(nodes), rel) then Err(NotEmpty)
                   else Ok(())
      ensures r.Ok? ==> nodes == Without(old(nodes), IndexOf(old(nodes), rel).value)
      ensures r.Err? ==> nodes == old(nodes)
      ensures old(IsTree(nodes)) ==> IsTree(nodes)
    {
      hide Names, Normal, IsChildOf, IsTree, NothingBelow;
      if rel == ROOT { return Err(CannotRemoveRoot); }
      var at := IndexOf(nodes, rel);
      if at.None? { return Err(PathNotFound); }
      if nodes[at.value].kind == DirectoryNode {
        var found := AnyBelow(rel);
        if found { return Err(NotEmpty); }
      }
      if IsTree(nodes) { DeleteKeepsTree(nodes, at.value); }
      nodes := Without(nodes, at.value);
      return Ok(());
    }

    /** The loop of `fs_rename` over all nodes. */
    method RelabelAll(from: Bytes, to: Bytes)
      modifies this`nodes
      ensures |nodes| == |old(nodes)|
      ensures forall i :: 0 <= i < |nodes| ==> nodes[i] == Relabel(old(nodes)[i], from, to)
    {
      hide IsChildOf;
      for i := 0 to |nodes|
        invariant |nodes| == |old(nodes)|
        invariant forall k :: 0 <= k < i ==> nodes[k] == Relabel(old(nodes)[k], from, to)
        invariant forall k :: i <= k < |nodes| ==> nodes[k] == old(nodes)[k]
      {
        if nodes[i].path != from && IsChildOf(from, nodes[i].path) {
          nodes := nodes[i := nodes[i].(path := to + nodes[i].path[|from|..])];
        }
      }
    }

    /** The body of `fs_rename` on one volume. */
    method Rename(from: Bytes, to: Bytes) returns (r: Result<(), TreeError>)
      requires Normal(from) == from && Normal(to) == to
      modifies this`nodes
      ensures r == if ParentCheck(old(nodes), to).Err? then ParentCheck(old(nodes), to)
                   else if IndexOf(old(nodes), to).Some? then Err(DestinationExists)
                   else if IndexOf(old(nodes), from).None? then Err(PathNotFound)
                   else Ok(())
      ensures nodes == if r.Ok? then Renamed(old(nodes), IndexOf(old(nodes), from).value, to) else old(nodes)
      ensures old(IsTree(nodes)) ==> (IsTree(nodes) <==> r.Ok? ==> SafeRename(from, to))
    {
      hide Names, Normal, IsChildOf, IsTree, ParentCheck, SafeRename;
      r := ParentCheck(nodes, to);
      if r.Err? { return; }
      if IndexOf(nodes, to).Some? { return Err(DestinationExists); }
      var found := IndexOf(nodes, from);
      if found.None? { return Err(PathNotFound); }
      var at := found.value;
      if IsTree(nodes) { RenameKeepsTreeExactlyWhen(nodes, at, to); }
      var kind := nodes[at].kind;
      nodes := nodes[at := nodes[at].(path := to)];
      if kind == DirectoryNode { RelabelAll(from, to); }
      assert nodes == Renamed(old(nodes), at, to);
      return Ok(());
    }
  }
}
