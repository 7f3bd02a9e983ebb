/**
 Open files: the descriptor table over the in-memory filesystem. Every open
 descriptor names a live file, because inodes are never reused and unlinking
 closes the descriptors of what it removes.
 */
module Descriptors {
  import opened Machine
  import opened Paths
  import opened TmpFs
  import opened MemFs

  datatype OpenOptions = OpenOptions(read: bool, write: bool, create: bool, truncate: bool, append: bool) {
    predicate MayChange() { write || create || truncate || append }
  }

  datatype OpenFile = OpenFile(inode: nat, offset: nat, readable: bool, writable: bool, append: bool)

  datatype SeekFrom = FromStart(pos: U64) | FromCurrent(delta: int) | FromEnd(delta: int)

  datatype VfsError =
    | NeedsAccess | ReadOnlyPath | TruncateNeedsWrite | BadDescriptor | NotReadable | NotWritable | Fs(error: FsError)

  // ---------------------------------------------------------------- bytes of a file

  /** `read_inode_range` on a file's bytes. */
  function ReadAt(data: seq<Byte>, offset: nat, maxLen: nat): seq<Byte> {
    if offset >= |data| then [] else data[offset..Min(|data|, offset + maxLen)]
  }

  /** `write_inode_at` on a file's bytes: zero-fill up to the end of the write, then overwrite the slice. */
  function WriteAt(data: seq<Byte>, offset: nat, bytes: seq<Byte>): seq<Byte> {
    var need := offset + |bytes|;
    var sized := if need > |data| then data + seq(need - |data|, _ => 0) else data;
    sized[..offset] + bytes + sized[need..]
  }

  /** A write changes exactly its slice: bytes before and after stay, a gap past the old end reads as zero. */
  lemma WriteIsExact(data: seq<Byte>, offset: nat, bytes: seq<Byte>)
    ensures var w := WriteAt(data, offset, bytes);
            && |w| == Max(|data|, offset + |bytes|)
            && (forall k :: 0 <= k < |bytes| ==> w[offset + k] == bytes[k])
            && (forall k :: 0 <= k < |w| && (k < offset || offset + |bytes| <= k) ==>
                  w[k] == if k < |data| then data[k] else 0)
  {
  }

  /** Reading back what was written returns it. */
  lemma ReadAfterWrite(data: seq<Byte>, offset: nat, bytes: seq<Byte>)
    ensures ReadAt(WriteAt(data, offset, bytes), offset, |bytes|) == bytes
  {
    WriteIsExact(data, offset, bytes);
  }

  /** The bytes read by successive reads of the given sizes, each starting where the last one ended. */
  function ReadChunks(data: seq<Byte>, offset: nat, sizes: seq<nat>): seq<Byte>
    decreases |sizes|
  {
    if sizes == [] then []
    else
      var chunk := ReadAt(data, offset, sizes[0]);
      chunk + ReadChunks(data, offset + |chunk|, sizes[1..])
  }

  function Total(sizes: seq<nat>): nat { if sizes == [] then 0 else sizes[0] + Total(sizes[1..]) }

  lemma ReadsJoin(data: seq<Byte>, offset: nat, a: nat, b: nat)
    ensures ReadAt(data, offset, a) + ReadAt(data, offset + |ReadAt(data, offset, a)|, b) == ReadAt(data, offset, a + b)
  {
    if offset < |data| {
      var mid, end := Min(|data|, offset + a), Min(|data|, offset + a + b);
      assert ReadAt(data, offset, a) == data[offset..mid] && ReadAt(data, offset, a + b) == data[offset..end];
      assert ReadAt(data, mid, b) == data[mid..end];
      hide ReadAt;
      SlicesJoin(data, offset, mid, end);
    }
  }

  lemma SlicesJoin<T>(s: seq<T>, i: nat, j: nat, k: nat)
    requires i <= j <= k <= |s|
    ensures s[i..j] + s[j..k] == s[i..k]
  {
  }

  /** However the sizes are chosen, the chunks are consecutive: together they are one big read. */
  lemma {:induction false} ChunksAreOneRead(data: seq<Byte>, offset: nat, sizes: seq<nat>)
    ensures ReadChunks(data, offset, sizes) == ReadAt(data, offset, Total(sizes))
    decreases |sizes|
  {
    ReadNothing(data, offset);
    hide ReadAt;
    if sizes != [] {
      var chunk := ReadAt(data, offset, sizes[0]);
      ChunksAreOneRead(data, offset + |chunk|, sizes[1..]);
      ReadsJoin(data, offset, sizes[0], Total(sizes[1..]));
    }
  }

  lemma ReadNothing(data: seq<Byte>, offset: nat)
    ensures ReadAt(data, offset, 0) == []
  {
  }

  /** Positive reads until one comes back empty yield exactly the bytes from the offset to the end. */
  lemma ReadUntilEmpty(data: seq<Byte>, offset: nat, sizes: seq<nat>, last: nat)
    requires last > 0 && offset <= |data|
    requires ReadAt(data, offset + |ReadChunks(data, offset, sizes)|, last) == []
    ensures ReadChunks(data, offset, sizes) == data[offset..]
  {
    ChunksAreOneRead(data, offset, sizes);
  }

  // ---------------------------------------------------------------- seeking

  const ISIZE_LIMIT: int := 0x8000_0000_0000_0000

  /** `pos as isize`: the upper half of the unsigned range becomes negative. */
  function AsIsize(u: nat): int
    requires u <= U64_MAX
  {
    if u < ISIZE_LIMIT then u else u - (U64_MAX + 1)
  }

  function SatAddIsize(a: int, b: int): int {
    if a + b >= ISIZE_LIMIT then ISIZE_LIMIT - 1 else if a + b < -ISIZE_LIMIT then -ISIZE_LIMIT else a + b
  }

  /** Where `seek` puts the offset: the requested position, clamped to the file. */
  function SeekTarget(from: SeekFrom, current: nat, len: nat): nat
    requires current <= U64_MAX && len < ISIZE_LIMIT
  {
    var target := match from
      case FromStart(pos) => AsIsize(pos)
      case FromCurrent(delta) => SatAddIsize(AsIsize(current), delta)
      case FromEnd(delta) => SatAddIsize(len, delta);
    if target < 0 then 0 else if target > len then len else target
  }

  /** Seeking a one-byte file to 2^63 goes to its start, not to its end. */
  lemma FarSeekGoesBack()
    ensures SeekTarget(FromStart(0x8000_0000_0000_0000), 0, 1) == 0
  {
    SeekStartExactlyWhen(0x8000_0000_0000_0000, 0, 1);
  }

  /** Seeking from the start reaches the smaller of position and length, except that a huge position wraps to the start. */
  lemma SeekStartExactlyWhen(pos: U64, current: nat, len: nat)
    requires current <= U64_MAX && len < ISIZE_LIMIT
    ensures SeekTarget(FromStart(pos), current, len) == Min(pos, len) <==> pos < ISIZE_LIMIT || len == 0
  {
  }

  // ---------------------------------------------------------------- the table

  /** The virtual tree that cannot be written. */
  predicate IsSysPath(path: Bytes) {
    var sys: Bytes := [47, 115, 121, 115];    // "/sys"
    path == sys || (|path| > 4 && path[..4] == sys && path[4] == SLASH)
  }

  /** The tree after the creating step of `open`. */
  ghost function Prepared(fs: TmpFs.Fs, path: Bytes, create: bool): TmpFs.Fs {
    if create && Resolve(fs, path).None? && CanCreate(fs, path) then Created(fs, path, File) else fs
  }

  ghost predicate ResolvesToFile(fs: TmpFs.Fs, path: Bytes) {
    var i := Resolve(fs, path);
    i.Some? && Live(fs, i.value) && Get(fs, i.value).kind == File
  }

  lemma PreparedWhenAbsent(fs: TmpFs.Fs, path: Bytes)
    ensures Prepared(fs, path, false) == fs
    ensures Resolve(fs, path).None? && !CanCreate(fs, path) ==> !ResolvesToFile(Prepared(fs, path, true), path)
  {
  }

  /** Opening a missing path with `create` reaches the new, empty file. */
  lemma PreparedResolves(fs: TmpFs.Fs, rank: Rank, path: Bytes)
    requires Tree(fs, rank) && Resolve(fs, path).None? && CanCreate(fs, path)
    ensures var after := Prepared(fs, path, true);
            Resolve(after, path) == Some(NextInode(fs)) && ResolvesToFile(after, path) && Get(after, NextInode(fs)).data == []
  {
    CreatedResolves(fs, rank, path, File);
    var (p, name) := ParentAndName(fs, path).value;
    InsertGet(fs, p, name, File);
  }

  /** A path that had to be created is a file afterwards. */
  lemma CreatedIsFile(fs: TmpFs.Fs, rank: Rank, path: Bytes, create: bool)
    requires Tree(fs, rank)
    ensures Prepared(fs, path, create) != fs ==> create && ResolvesToFile(Prepared(fs, path, create), path)
  {
    if Prepared(fs, path, create) != fs { PreparedResolves(fs, rank, path); }
  }

  ghost predicate NamesLiveFile(fs: TmpFs.Fs, slot: Option<OpenFile>) {
    slot.Some? ==> Live(fs, slot.value.inode) && Get(fs, slot.value.inode).kind == File
  }

  /** What every run keeps: each open descriptor names a live file. */
  ghost predicate TableOk(fs: TmpFs.Fs, table: seq<Option<OpenFile>>) {
    forall fd :: 0 <= fd < |table| ==> NamesLiveFile(fs, table[fd])
  }

  /** Live files stay live files when no inode disappears or changes kind. */
  lemma TableStays(before: TmpFs.Fs, after: TmpFs.Fs, table: seq<Option<OpenFile>>)
    requires TableOk(before, table)
    requires forall i: nat | Live(before, i) :: Live(after, i) && Get(after, i).kind == Get(before, i).kind
    ensures TableOk(after, table)
  {
    hide Live, Get;
    forall fd | 0 <= fd < |table| ensures NamesLiveFile(after, table[fd]) {
      assert NamesLiveFile(before, table[fd]);
    }
  }

  /** `invalidate_inode_descriptors`. */
  function Invalidated(table: seq<Option<OpenFile>>, inode: nat): (t: seq<Option<OpenFile>>)
    ensures |t| == |table|
    ensures forall fd :: 0 <= fd < |table| ==>
              t[fd] == if table[fd].Some? && table[fd].value.inode == inode then None else table[fd]
  {
    if table == [] then []
    else [if table[0].Some? && table[0].value.inode == inode then None else table[0]] + Invalidated(table[1..], inode)
  }

  class VfsState {
    const fs: TmpFileSystem
    var openFiles: seq<Option<OpenFile>>

    ghost predicate Valid()
      reads this, fs
    {
      fs.Valid() && TableOk(fs.State(), openFiles)
    }

    constructor (fs: TmpFileSystem)
      requires fs.Valid()
      ensures Valid() && this.fs == fs && openFiles == []
    {
      this.fs, openFiles := fs, [];
    }

    predicate IsOpen(fd: nat)
      reads this
    {
      fd < |openFiles| && openFiles[fd].Some?
    }

    /** `alloc_fd`: the lowest free descriptor; no open one is touched. */
    method AllocFd(file: OpenFile) returns (fd: nat)
      requires Valid() && NamesLiveFile(fs.State(), Some(file))
      modifies this`openFiles
      ensures Valid() && fd <= |old(openFiles)| && !old(IsOpen(fd))
      ensures forall f: nat | f < fd :: old(IsOpen(f))
      ensures openFiles == if fd < |old(openFiles)| then old(openFiles)[fd := Some(file)] else old(openFiles) + [Some(file)]
    {
      hide Tree, NamesLiveFile;
      for i := 0 to |openFiles|
        invariant openFiles == old(openFiles) && Valid()
        invariant forall f: nat | f < i :: IsOpen(f)
      {
        if openFiles[i].None? {
          openFiles := openFiles[i := Some(file)];
          return i;
        }
      }
      openFiles := openFiles + [Some(file)];
      return |openFiles| - 1;
    }

    /** `close_fd`. */
    method Close(fd: nat) returns (r: Result<(), VfsError>)
      requires Valid()
      modifies this`openFiles
      ensures Valid()
      ensures r == if old(IsOpen(fd)) then Ok(()) else Err(BadDescriptor)
      ensures openFiles == if r.Ok? then old(openFiles)[fd := None] else old(openFiles)
    {
      hide Tree;
      if fd >= |openFiles| || openFiles[fd].None? { return Err(BadDescriptor); }
      openFiles := openFiles[fd := None];
      return Ok(());
    }

    /** `read`: the bytes at the offset, which moves past them. */
    method Read(fd: nat, maxLen: nat) returns (r: Result<seq<Byte>, VfsError>)
      requires Valid()
      modifies this`openFiles
      ensures Valid()
      ensures r.Err? <==> !old(IsOpen(fd)) || !old(openFiles)[fd].value.readable
      ensures r.Err? ==> openFiles == old(openFiles)
      ensures r.Ok? ==>
                var of := old(openFiles)[fd].value;
                && Live(fs.State(), of.inode) && r.value == ReadAt(fs.Data(of.inode), of.offset, maxLen)
                && openFiles == old(openFiles)[fd := Some(of.(offset := of.offset + |r.value|))]
    {
      hide Tree;
      if fd >= |openFiles| || openFiles[fd].None? { return Err(BadDescriptor); }
      var of := openFiles[fd].value;
      assert NamesLiveFile(fs.State(), openFiles[fd]);
      if !of.readable { return Err(NotReadable); }
      var data := fs.nodes[of.inode - 1].value.data;
      var bytes := if of.offset >= |data| then [] else data[of.offset..Min(|data|, of.offset + maxLen)];
      openFiles := openFiles[fd := Some(of.(offset := of.offset + |bytes|))];
      return Ok(bytes);
    }

    /** `write`: overwrites exactly its slice of the file, at the end when appending, and moves past it. */
    method Write(fd: nat, bytes: seq<Byte>) returns (r: Result<nat, VfsError>)
      requires Valid()
      modifies this`openFiles, fs
      ensures Valid()
      ensures r.Err? <==> !old(IsOpen(fd)) || !old(openFiles)[fd].value.writable
      ensures r.Err? ==> openFiles == old(openFiles) && fs.State() == old(fs.State())
      ensures r.Ok? ==>
                var of := old(openFiles)[fd].value;
                && r.value == |bytes| && Live(old(fs.State()), of.inode)
                && var data := Get(old(fs.State()), of.inode).data;
                   var offset := if of.append then |data| else of.offset;
                   && fs.State() == Put(old(fs.State()), of.inode, Get(old(fs.State()), of.inode).(data := WriteAt(data, offset, bytes)))
                   && openFiles == old(openFiles)[fd := Some(of.(offset := offset + |bytes|))]
    {
      hide Tree, WriteAt;
      if fd >= |openFiles| || openFiles[fd].None? { return Err(BadDescriptor); }
      var of := openFiles[fd].value;
      assert NamesLiveFile(fs.State(), openFiles[fd]);
      if !of.writable { return Err(NotWritable); }
      var data := fs.nodes[of.inode - 1].value.data;
      var offset := if of.append then |data| else of.offset;
      PutDataGet(fs.State(), of.inode, WriteAt(data, offset, bytes));
      fs.SetData(of.inode, WriteAt(data, offset, bytes));
      TableStays(old(fs.State()), fs.State(), openFiles);
      openFiles := openFiles[fd := Some(of.(offset := offset + |bytes|))];
      return Ok(|bytes|);
    }

    /** `seek`. */
    method Seek(fd: nat, from: SeekFrom) returns (r: Result<nat, VfsError>)
      requires Valid()
      requires IsOpen(fd) ==> openFiles[fd].value.offset <= U64_MAX
                              && forall i: nat | Live(fs.State(), i) :: |fs.Data(i)| < ISIZE_LIMIT
      modifies this`openFiles
      ensures Valid()
      ensures r.Err? <==> !old(IsOpen(fd))
      ensures r.Err? ==> openFiles == old(openFiles)
      ensures r.Ok? ==>
                var of := old(openFiles)[fd].value;
                && Live(fs.State(), of.inode) && |fs.Data(of.inode)| < ISIZE_LIMIT
                && r.value == SeekTarget(from, of.offset, |fs.Data(of.inode)|)
                && openFiles == old(openFiles)[fd := Some(of.(offset := r.value))]
    {
      hide Tree;
      if fd >= |openFiles| || openFiles[fd].None? { return Err(BadDescriptor); }
      var of := openFiles[fd].value;
      assert NamesLiveFile(fs.State(), openFiles[fd]);
      assert |fs.Data(of.inode)| < ISIZE_LIMIT;
      var len := |fs.nodes[of.inode - 1].value.data|;
      var clamped := SeekTarget(from, of.offset, len);
      openFiles := openFiles[fd := Some(of.(offset := clamped))];
      return Ok(clamped);
    }

    /** The part of `open` after the file exists: kind check, truncation, starting offset. */
    method OpenExisting(path: Bytes, options: OpenOptions) returns (r: Result<nat, VfsError>)
      requires Valid()
      modifies this`openFiles, fs
      ensures Valid()
      ensures r.Err? ==> fs.State() == old(fs.State()) && openFiles == old(openFiles)
      ensures r.Ok? ==>
                && Resolve(old(fs.State()), path).Some?
                && var i := Resolve(old(fs.State()), path).value;
                   && Live(old(fs.State()), i) && Get(old(fs.State()), i).kind == File
                   && !old(IsOpen(r.value)) && IsOpen(r.value)
                   && fs.State() == (if options.truncate then Put(old(fs.State()), i, Get(old(fs.State()), i).(data := [])) else old(fs.State()))
                   && openFiles[r.value].value == OpenFile(i,
                        if options.append && !options.truncate then |Get(old(fs.State()), i).data| else 0,
                        options.read, options.write, options.append)
                   && |old(openFiles)| <= |openFiles|
                   && (forall fd: nat | fd < |old(openFiles)| && fd != r.value :: openFiles[fd] == old(openFiles)[fd])
      ensures r.Ok? <==> (options.truncate ==> options.write)
                         && Resolve(old(fs.State()), path).Some?
                         && Live(old(fs.State()), Resolve(old(fs.State()), path).value)
                         && Get(old(fs.State()), Resolve(old(fs.State()), path).value).kind == File
    {
      hide Tree, Parts, Walk;
      var found := fs.ResolvePath(path);
      if found.Err? { return Err(VfsError.Fs(found.error)); }
      var i := found.value;
      if fs.nodes[i - 1].value.kind != File { return Err(VfsError.Fs(NotAFile)); }
      if options.truncate {
        if !options.write { return Err(TruncateNeedsWrite); }
        PutDataGet(fs.State(), i, []);
        fs.SetData(i, []);
        TableStays(old(fs.State()), fs.State(), openFiles);
      }
      var offset := if options.append then |fs.nodes[i - 1].value.data| else 0;
      var fd := AllocFd(OpenFile(i, offset, options.read, options.write, options.append));
      return Ok(fd);
    }

    /** The creating step of `open`: the file is added when the path does not resolve. */
    method CreateIfMissing(path: Bytes) returns (r: Result<(), VfsError>)
      requires Valid()
      modifies fs
      ensures Valid()
      ensures r.Err? <==> Resolve(old(fs.State()), path).None? && !CanCreate(old(fs.State()), path)
      ensures fs.State() == Prepared(old(fs.State()), path, true)
    {
      hide Tree, Parts, Walk, Insert, Lookup;
      var found := fs.ResolvePath(path);
      if found.Err? {
        var made := fs.CreateNode(path, File);
        if made.Err? { return Err(VfsError.Fs(made.error)); }
        ghost var (p, name) := ParentAndName(old(fs.State()), path).value;
        InsertGet(old(fs.State()), p, name, File);
        TableStays(old(fs.State()), fs.State(), openFiles);
      }
      return Ok(());
    }

    /**
     `open`, creating the file first when asked to and it does not resolve. The new descriptor was closed
     before and names the file the path resolves to; nothing else about the table changes.
     */
    method Open(path: Bytes, options: OpenOptions) returns (r: Result<nat, VfsError>)
      requires Valid()
      modifies this`openFiles, fs
      ensures Valid()
      ensures r.Ok? <==>
        && (options.read || options.write) && (options.truncate ==> options.write)
        && !(old(IsSysPath(Absolute(NormalizedNames(fs.State(), fs.rank, path)))) && options.MayChange())
        && ResolvesToFile(Prepared(old(fs.State()), path, options.create), path)
      ensures r.Ok? ==>
        var base := Prepared(old(fs.State()), path, options.create);
        var i := Resolve(base, path).value;
        && Live(base, i) && !old(IsOpen(r.value)) && IsOpen(r.value)
        && fs.State() == (if options.truncate then Put(base, i, Get(base, i).(data := [])) else base)
        && Resolve(fs.State(), path) == Some(i)
        && openFiles[r.value].value == OpenFile(i,
             if options.append && !options.truncate then |Get(base, i).data| else 0,
             options.read, options.write, options.append)
      ensures r.Err? ==> openFiles == old(openFiles)
      ensures r.Err? ==> (
        var tried := (options.read || options.write) && !(old(IsSysPath(Absolute(NormalizedNames(fs.State(), fs.rank, path)))) && options.MayChange());
        fs.State() == if tried then Prepared(old(fs.State()), path, options.create) else old(fs.State()))
      ensures r.Err? && fs.State() != old(fs.State()) ==> options.create && options.truncate && !options.write
      ensures forall fd: nat | old(IsOpen(fd)) :: IsOpen(fd) && openFiles[fd] == old(openFiles)[fd]
    {
      hide Tree, Parts, Walk, Insert, NormalizedNames, Lookup, IsSysPath, TableOk, Prepared, CanCreate;
      PreparedWhenAbsent(fs.State(), path);
      CreatedIsFile(fs.State(), fs.rank, path, options.create);
      var abs := fs.NormalizedPath(path);
      if !options.read && !options.write { return Err(NeedsAccess); }
      if IsSysPath(abs) && options.MayChange() {
        return Err(ReadOnlyPath);
      }
      if options.create && !IsSysPath(abs) {
        var made := CreateIfMissing(path);
        if made.Err? { return Err(made.error); }
      }
      ghost var mid := fs.State();
      r := OpenExisting(path, options);
      if r.Ok? {
        var i := Resolve(mid, path).value;
        ResolveIgnoresData(mid, path, i, []);
      }
    }

    /** `unlink`: closes every descriptor of the removed inode, and only those. */
    method Unlink(path: Bytes) returns (r: Result<(), VfsError>)
      requires Valid()
      modifies this`openFiles, fs
      ensures Valid()
      ensures r.Err? ==> fs.State() == old(fs.State()) && openFiles == old(openFiles)
      ensures r.Ok? ==>
                && Resolve(old(fs.State()), path).Some?
                && var i := Resolve(old(fs.State()), path).value;
                   && Live(old(fs.State()), i) && !Live(fs.State(), i)
                   && Get(old(fs.State()), i).parent.Some? && Live(old(fs.State()), Get(old(fs.State()), i).parent.value)
                   && fs.State() == Erase(old(fs.State()), i)
                   && openFiles == Invalidated(old(openFiles), i)
      ensures r.Ok? <==>
        && !old(IsSysPath(Absolute(NormalizedNames(fs.State(), fs.rank, path))))
        && var i := Resolve(old(fs.State()), path);
           i.Some? && i.value != ROOT_INODE && Live(old(fs.State()), i.value) && Get(old(fs.State()), i.value).children == []
    {
      hide Tree, Parts, Walk, Erase, NormalizedNames;
      var abs := fs.NormalizedPath(path);
      if IsSysPath(abs) { return Err(ReadOnlyPath); }
      var found := fs.ResolvePath(path);
      if found.Err? { return Err(VfsError.Fs(found.error)); }
      ghost var before := openFiles;
      InvalidateInode(found.value);
      var removed := fs.Remove(path);
      if removed.Err? {
        NothingToInvalidate(old(fs.State()), fs.rank, before, found.value);
        return Err(VfsError.Fs(removed.error));
      }
      assert Hangs(old(fs.State()), old(fs.rank), found.value) by { HangsAt(old(fs.State()), old(fs.rank), found.value); }
      EraseGet(old(fs.State()), found.value);
      TableShrinks(old(fs.State()), fs.State(), before, found.value);
      return Ok(());
    }

    /** `mkdir`: open descriptors are unaffected. */
    method Mkdir(path: Bytes) returns (r: Result<(), VfsError>)
      requires Valid()
      modifies fs
      ensures Valid()
      ensures r.Err? ==> fs.State() == old(fs.State())
      ensures r.Ok? <==>
        && !old(IsSysPath(Absolute(NormalizedNames(fs.State(), fs.rank, path)))) && CanCreate(old(fs.State()), path)
      ensures r.Ok? ==> CanCreate(old(fs.State()), path) && fs.State() == Created(old(fs.State()), path, Directory)
    {
      hide Tree, Parts, Walk, Insert, Lookup, NormalizedNames;
      var abs := fs.NormalizedPath(path);
      if IsSysPath(abs) { return Err(ReadOnlyPath); }
      var made := fs.CreateNode(path, Directory);
      if made.Err? { return Err(VfsError.Fs(made.error)); }
      ghost var (p, name) := ParentAndName(old(fs.State()), path).value;
      InsertGet(old(fs.State()), p, name, Directory);
      TableStays(old(fs.State()), fs.State(), openFiles);
      return Ok(());
    }

    /** `rename`: descriptors follow the inode; even an unsafe move leaves them naming live files. */
    method Rename(from: Bytes, to: Bytes) returns (r: Result<(), VfsError>, ghost i: nat, ghost newParent: nat)
      requires Valid()
      modifies fs
      ensures TableOk(fs.State(), openFiles)
      ensures r.Err? ==> fs.State() == old(fs.State()) && Valid()
      ensures r.Ok? ==>
                && Resolve(old(fs.State()), from) == Some(i) && ParentAndName(old(fs.State()), to).Ok?
                && newParent == ParentAndName(old(fs.State()), to).value.0
                && Live(old(fs.State()), i) && Live(old(fs.State()), newParent)
                && Get(old(fs.State()), i).parent.Some? && Live(old(fs.State()), Get(old(fs.State()), i).parent.value)
                && fs.State() == Move(old(fs.State()), i, newParent, ParentAndName(old(fs.State()), to).value.1)
                && (Valid() <==> old(fs.SafeMove(i, newParent)))
                && (IsTree(fs.State()) <==> old(fs.SafeMove(i, newParent)))
      ensures r.Ok? <==>
        && !old(IsSysPath(Absolute(NormalizedNames(fs.State(), fs.rank, from))))
        && !old(IsSysPath(Absolute(NormalizedNames(fs.State(), fs.rank, to))))
        && Resolve(old(fs.State()), from).Some? && Resolve(old(fs.State()), from) != Some(ROOT_INODE)
        && var target := ParentAndName(old(fs.State()), to);
           target.Ok? && Lookup(old(fs.State()), target.value.0, target.value.1).None?
    {
      hide Tree, Parts, Walk, Move, Lookup, TmpFileSystem.SafeMove, NormalizedNames, IsSysPath;
      i, newParent := 0, 0;
      var absFrom := fs.NormalizedPath(from);
      var absTo := fs.NormalizedPath(to);
      if IsSysPath(absFrom) || IsSysPath(absTo) { return Err(ReadOnlyPath), i, newParent; }
      var moved: Result<(), FsError>;
      moved, i, newParent := fs.RenamePath(from, to);
      if moved.Err? { return Err(VfsError.Fs(moved.error)), i, newParent; }
      MoveGet(old(fs.State()), i, newParent, ParentAndName(old(fs.State()), to).value.1);
      TableStays(old(fs.State()), fs.State(), openFiles);
      return Ok(()), i, newParent;
    }

    /** The loop of `invalidate_inode_descriptors`. */
    method InvalidateInode(inode: nat)
      requires Valid()
      modifies this`openFiles
      ensures Valid() && openFiles == Invalidated(old(openFiles), inode)
    {
      hide Tree, NamesLiveFile, TableOk, Invalidated;
      for fd := 0 to |openFiles|
        invariant |openFiles| == |old(openFiles)|
        invariant forall k: nat | k < fd :: openFiles[k] == Invalidated(old(openFiles), inode)[k]
        invariant forall k: nat | fd <= k < |openFiles| :: openFiles[k] == old(openFiles)[k]
      {
        if openFiles[fd].Some? && openFiles[fd].value.inode == inode {
          openFiles := openFiles[fd := None];
        }
      }
      InvalidatedOk(fs.State(), old(openFiles), inode);
      assert openFiles == Invalidated(old(openFiles), inode);
    }
  }

  lemma HangsAt(fs: TmpFs.Fs, rank: Rank, i: nat)
    requires Tree(fs, rank) && Live(fs, i)
    ensures Hangs(fs, rank, i)
  {
  }

  lemma InvalidatedOk(fs: TmpFs.Fs, table: seq<Option<OpenFile>>, inode: nat)
    requires TableOk(fs, table)
    ensures TableOk(fs, Invalidated(table, inode))
  {
    var t := Invalidated(table, inode);
    forall fd | 0 <= fd < |t| ensures NamesLiveFile(fs, t[fd]) {
      assert NamesLiveFile(fs, table[fd]);
    }
  }

  /** After the inode is gone, the descriptors that were left alone still name live files. */
  lemma TableShrinks(before: TmpFs.Fs, after: TmpFs.Fs, table: seq<Option<OpenFile>>, inode: nat)
    requires TableOk(before, table)
    requires forall i: nat | Live(before, i) && i != inode :: Live(after, i) && Get(after, i).kind == Get(before, i).kind
    ensures TableOk(after, Invalidated(table, inode))
  {
    hide Live, Get;
    var t := Invalidated(table, inode);
    forall fd | 0 <= fd < |t| ensures NamesLiveFile(after, t[fd]) {
      assert NamesLiveFile(before, table[fd]);
    }
  }

  /** Only directories refuse removal, and no descriptor names a directory. */
  lemma NothingToInvalidate(fs: TmpFs.Fs, rank: Rank, table: seq<Option<OpenFile>>, i: nat)
    requires Tree(fs, rank) && TableOk(fs, table) && Live(fs, i)
    requires i == ROOT_INODE || Get(fs, i).children != []
    ensures Invalidated(table, i) == table
  {
    assert Lists(fs, i);
    forall fd | 0 <= fd < |table| ensures Invalidated(table, i)[fd] == table[fd] {
      assert NamesLiveFile(fs, table[fd]);
    }
  }

  /** Paths do not depend on file contents. */
  lemma ResolveIgnoresData(fs: TmpFs.Fs, path: Bytes, i: nat, data: seq<Byte>)
    requires Live(fs, i)
    ensures Resolve(Put(fs, i, Get(fs, i).(data := data)), path) == Resolve(fs, path)
  {
    WalkIgnoresData(fs, Start(fs, path), Parts(path), i, data);
  }

  lemma {:induction false} WalkIgnoresData(fs: TmpFs.Fs, at: nat, parts: seq<Bytes>, i: nat, data: seq<Byte>)
    requires Live(fs, i)
    ensures Walk(Put(fs, i, Get(fs, i).(data := data)), at, parts) == Walk(fs, at, parts)
    decreases |parts|
  {
    var after := Put(fs, i, Get(fs, i).(data := data));
    PutDataGet(fs, i, data);
    hide Put;
    if parts != [] {
      if parts[0] == HERE {
        WalkIgnoresData(fs, at, parts[1..], i, data);
      } else if parts[0] == UP {
        if Live(fs, at) {
          WalkIgnoresData(fs, if Get(fs, at).parent.Some? then Get(fs, at).parent.value else at, parts[1..], i, data);
        }
      } else {
        if Live(fs, at) { FindIgnoresData(fs, Get(fs, at).children, parts[0], i, data); }
        var c := Lookup(fs, at, parts[0]);
        if c.Some? { WalkIgnoresData(fs, c.value, parts[1..], i, data); }
      }
    }
  }

  lemma {:induction false} FindIgnoresData(fs: TmpFs.Fs, children: seq<nat>, name: Bytes, i: nat, data: seq<Byte>)
    requires Live(fs, i)
    ensures FindChild(Put(fs, i, Get(fs, i).(data := data)), children, name) == FindChild(fs, children, name)
  {
    PutDataGet(fs, i, data);
    if children != [] { FindIgnoresData(fs, children[1..], name, i, data); }
  }
}
