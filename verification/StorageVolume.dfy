/** Storage volumes: trees in memory, kept on partitions of block devices. */
module StorageVolume {
  import opened Machine
  import opened Paths
  import opened StorageCodec
  import opened StorageTree
  import opened MountedTree
  import opened BlockDevices

  datatype Disk = Disk(name: Bytes, block: BlockDevice, partitions: seq<Partition>)

  datatype StorageError = NotMounted | BackendUnavailable | DiskMissing | PartitionMissing
                        | Device(device: DeviceError) | Tree(tree: TreeError)

  // ---------------------------------------------------------------- names

  function Lower(b: Byte): Byte { if 65 <= b <= 90 then b + 32 else b }

  /** `eq_ignore_ascii_case`. */
  predicate SameName(a: Bytes, b: Bytes) { |a| == |b| && forall i :: 0 <= i < |a| ==> Lower(a[i]) == Lower(b[i]) }

  /** `find` by name: the first match. */
  function FirstNamed(names: seq<Bytes>, name: Bytes): (r: Option<nat>)
    ensures r.Some? ==> r.value < |names| && SameName(names[r.value], name)
    ensures r.Some? ==> forall j :: 0 <= j < r.value ==> !SameName(names[j], name)
    ensures r.None? ==> forall j :: 0 <= j < |names| ==> !SameName(names[j], name)
  {
    if names == [] then None
    else
      var n := |names| - 1;
      match FirstNamed(names[..n], name)
      case Some(i) => Some(i)
      case None => if SameName(names[n], name) then Some(n) else None
  }

  function DiskNames(disks: seq<Disk>): seq<Bytes> { seq(|disks|, i requires 0 <= i < |disks| => disks[i].name) }

  function PartitionNames(parts: seq<Partition>): seq<Bytes> { seq(|parts|, i requires 0 <= i < |parts| => parts[i].name) }

  /** The names of the first disk with a partition of that name, and of the partition. */
  function Owner(disks: seq<Disk>, volume: Bytes): Option<(Bytes, Bytes)> {
    if disks == [] then None
    else
      match FirstNamed(PartitionNames(disks[0].partitions), volume)
      case Some(p) => Some((disks[0].name, disks[0].partitions[p].name))
      case None => Owner(disks[1..], volume)
  }

  /** Where a volume's bytes are: disk index and partition, found again by the owner's names. */
  function Locate(disks: seq<Disk>, volume: Bytes): (r: Result<(nat, Partition), StorageError>)
    ensures r.Ok? ==> r.value.0 < |disks| && r.value.1 in disks[r.value.0].partitions
  {
    match Owner(disks, volume)
    case None => Err(BackendUnavailable)
    case Some((diskName, partName)) =>
      match FirstNamed(DiskNames(disks), diskName)
      case None => Err(DiskMissing)
      case Some(d) =>
        match FirstNamed(PartitionNames(disks[d].partitions), partName)
        case None => Err(PartitionMissing)
        case Some(p) => Ok((d, disks[d].partitions[p]))
  }

  /** `resolve_volume_owner`. */
  method ResolveVolumeOwner(disks: seq<Disk>, volume: Bytes) returns (r: Option<(Bytes, Bytes)>)
    ensures r == Owner(disks, volume)
  {
    hide SameName;
    for d := 0 to |disks|
      invariant Owner(disks, volume) == Owner(disks[d..], volume)
    {
      assert disks[d..][0] == disks[d] && disks[d..][1..] == disks[d + 1..];
      var parts := disks[d].partitions;
      for p := 0 to |parts|
        invariant forall j :: 0 <= j < p ==> !SameName(parts[j].name, volume)
      {
        if SameName(parts[p].name, volume) {
          assert SameName(PartitionNames(parts)[p], volume);
          return Some((disks[d].name, parts[p].name));
        }
      }
      assert FirstNamed(PartitionNames(parts), volume) == None;
    }
    assert disks[|disks|..] == [];
    return None;
  }

  /** No two disks share a name, ignoring case. */
  predicate DiskNamesDiffer(disks: seq<Disk>) {
    forall i, j :: 0 <= i < j < |disks| ==> !SameName(disks[i].name, disks[j].name)
  }

  /** Partition `p` of disk `d` is the first, in disk order, with that name. */
  predicate FirstWithName(disks: seq<Disk>, volume: Bytes, d: nat, p: nat) {
    && d < |disks| && p < |disks[d].partitions| && SameName(disks[d].partitions[p].name, volume)
    && (forall q :: 0 <= q < p ==> !SameName(disks[d].partitions[q].name, volume))
    && (forall e :: 0 <= e < d ==> NoneNamed(disks[e].partitions, volume))
  }

  predicate NoneNamed(parts: seq<Partition>, volume: Bytes) {
    forall q :: 0 <= q < |parts| ==> !SameName(parts[q].name, volume)
  }

  lemma SameNameAgree(a: Bytes, b: Bytes, c: Bytes)
    requires SameName(a, b)
    ensures SameName(c, a) <==> SameName(c, b)
  {
  }

  lemma {:induction false} OwnerIsFirst(disks: seq<Disk>, volume: Bytes) returns (d: nat, p: nat)
    requires Owner(disks, volume).Some?
    ensures FirstWithName(disks, volume, d, p)
    ensures Owner(disks, volume) == Some((disks[d].name, disks[d].partitions[p].name))
  {
    hide SameName;
    var names := PartitionNames(disks[0].partitions);
    match FirstNamed(names, volume) {
      case Some(i) =>
        d, p := 0, i;
        assert forall q :: 0 <= q < p ==> names[q] == disks[0].partitions[q].name;
      case None =>
        var d0;
        d0, p := OwnerIsFirst(disks[1..], volume);
        d := d0 + 1;
        assert forall q :: 0 <= q < |names| ==> names[q] == disks[0].partitions[q].name;
        forall e | 0 <= e < d ensures NoneNamed(disks[e].partitions, volume) {
          if e > 0 { assert disks[1..][e - 1] == disks[e]; }
        }
    }
  }

  lemma {:induction false} NoOwnerMeansNone(disks: seq<Disk>, volume: Bytes)
    ensures Owner(disks, volume).None? <==> forall d :: 0 <= d < |disks| ==> NoneNamed(disks[d].partitions, volume)
  {
    if disks != [] {
      var parts := disks[0].partitions;
      var names := PartitionNames(parts);
      assert forall q :: 0 <= q < |names| ==> names[q] == parts[q].name;
      assert FirstNamed(names, volume).None? <==> NoneNamed(parts, volume);
      NoOwnerMeansNone(disks[1..], volume);
      hide SameName, FirstNamed, NoneNamed;
      assert forall d :: 0 < d < |disks| ==> disks[d] == disks[1..][d - 1];
      assert forall d :: 0 <= d < |disks| - 1 ==> disks[d + 1] == disks[1..][d];
    }
  }

  /**
   Where looking a volume up by name leads. When disk names differ it succeeds exactly when some partition has
   the name, and then gives the first such partition, on its own disk.
   */
  lemma LocateFinds(disks: seq<Disk>, volume: Bytes)
    ensures Locate(disks, volume) == Err(BackendUnavailable)
            <==> forall d :: 0 <= d < |disks| ==> NoneNamed(disks[d].partitions, volume)
    ensures Locate(disks, volume) != Err(DiskMissing)
    ensures DiskNamesDiffer(disks) && Locate(disks, volume).Err? ==> Locate(disks, volume) == Err(BackendUnavailable)
    ensures DiskNamesDiffer(disks) && Locate(disks, volume).Ok? ==>
      exists p: nat :: FirstWithName(disks, volume, Locate(disks, volume).value.0, p)
                       && Locate(disks, volume).value.1 == disks[Locate(disks, volume).value.0].partitions[p]
  {
    NoOwnerMeansNone(disks, volume);
    if Owner(disks, volume).Some? {
      var d, p := OwnerIsFirst(disks, volume);
      FoundByOwner(disks, volume, d, p);
    }
  }

  lemma FoundByOwner(disks: seq<Disk>, volume: Bytes, d: nat, p: nat)
    requires FirstWithName(disks, volume, d, p)
    requires Owner(disks, volume) == Some((disks[d].name, disks[d].partitions[p].name))
    ensures Locate(disks, volume) != Err(DiskMissing) && Locate(disks, volume) != Err(BackendUnavailable)
    ensures DiskNamesDiffer(disks) ==> Locate(disks, volume) == Ok((d, disks[d].partitions[p]))
  {
    var name := disks[d].name;
    var names := DiskNames(disks);
    assert names[d] == name && SameName(name, name);
    var parts := disks[d].partitions;
    var partNames := PartitionNames(parts);
    assert partNames[p] == parts[p].name && SameName(parts[p].name, parts[p].name);
    forall q | 0 <= q < p ensures !SameName(partNames[q], parts[p].name) {
      SameNameAgree(parts[p].name, volume, parts[q].name);
    }
    hide SameName;
    assert FirstNamed(partNames, parts[p].name) == Some(p);
    if DiskNamesDiffer(disks) {
      assert forall e :: 0 <= e < d ==> names[e] == disks[e].name;
      assert FirstNamed(names, name) == Some(d);
    }
  }

  method FindVolume(disks: seq<Disk>, volume: Bytes) returns (r: Result<(nat, Partition), StorageError>)
    ensures r == Locate(disks, volume)
    ensures DiskNamesDiffer(disks) ==>
      if r.Err? then r == Err(BackendUnavailable) && forall d :: 0 <= d < |disks| ==> NoneNamed(disks[d].partitions, volume)
      else exists p: nat :: FirstWithName(disks, volume, r.value.0, p) && r.value.1 == disks[r.value.0].partitions[p]
  {
    hide FirstNamed, SameName, FirstWithName, NoneNamed, DiskNamesDiffer;
    LocateFinds(disks, volume);
    var owner := ResolveVolumeOwner(disks, volume);
    if owner.None? { return Err(BackendUnavailable); }
    var d := FirstNamed(DiskNames(disks), owner.value.0);
    if d.None? { return Err(DiskMissing); }
    var p := FirstNamed(PartitionNames(disks[d.value].partitions), owner.value.1);
    if p.None? { return Err(PartitionMissing); }
    return Ok((d.value, disks[d.value].partitions[p.value]));
  }

  // ---------------------------------------------------------------- stored trees

  function Name(text: string): Bytes
    requires forall i :: 0 <= i < |text| ==> text[i] as int < 256
  {
    seq(|text|, i requires 0 <= i < |text| => text[i] as int)
  }

  /** `default_fat_tree`. */
  function DefaultTree(): seq<FsNode> {
    TopDirectories([Name("boot"), Name("dev"), Name("home"), Name("etc"), Name("tmp"), Name("proc"), Name("sys")])
  }

  /** What loading gives for these bytes. */
  function LoadedFrom(bytes: Bytes): seq<FsNode> {
    match Deserialized(bytes)
    case Some(nodes) => nodes
    case None => DefaultTree()
  }

  lemma DefaultIsTree()
    ensures IsTree(DefaultTree())
  {
    var names: Key := [Name("boot"), Name("dev"), Name("home"), Name("etc"), Name("tmp"), Name("proc"), Name("sys")];
    forall i | 0 <= i < |names| ensures IsPlainName(names[i]) {
      assert |names[i]| >= 3;
      assert names[0] == [98, 111, 111, 116] && names[1] == [100, 101, 118] && names[2] == [104, 111, 109, 101]
          && names[3] == [101, 116, 99] && names[4] == [116, 109, 112] && names[5] == [112, 114, 111, 99] && names[6] == [115, 121, 115];
    }
    forall i, j | 0 <= i < j < |names| ensures names[i] != names[j] {
      assert names[i][0] != names[j][0];
    }
    TopDirectoriesAreTree(names);
  }

  /**
   A tree written to a partition and read back, whatever zeros follow it, is the tree itself exactly when
   its lengths fit their fields.
   */
  lemma SavedLoads(nodes: seq<FsNode>, padding: nat)
    requires AllUtf8(nodes)
    ensures LoadedFrom(Serialized(nodes) + Zeros(padding)) == nodes <==> Fits(nodes)
  {
    hide Serialized, Deserialized, AllUtf8, DefaultTree, Fits;
    RoundTripExactlyWhen(nodes, Zeros(padding));
    DefaultFits();
  }

  lemma DefaultFits()
    ensures Fits(DefaultTree())
  {
    hide Absolute;
    var names: Key := [Name("boot"), Name("dev"), Name("home"), Name("etc"), Name("tmp"), Name("proc"), Name("sys")];
    forall i | 0 <= i <= |names| ensures |Absolute(TopKey(names, i))| < 16 {
      ShortPath(names, i);
    }
  }

  lemma ShortPath(names: Key, i: nat)
    requires i <= |names| && forall j :: 0 <= j < |names| ==> |names[j]| < 10
    ensures |Absolute(TopKey(names, i))| < 16
  {
    if i > 0 {
      var k := TopKey(names, i);
      assert k[1..] == [] && Render(k[1..]) == [];
    }
  }

  // ---------------------------------------------------------------- saving, on images

  /** The bytes of every disk. */
  ghost function Images(disks: seq<Disk>): (images: seq<Bytes>)
    reads Blocks(disks)
    ensures |images| == |disks|
  {
    seq(|disks|, i requires 0 <= i < |disks| reads Blocks(disks) => assert disks[i] in disks; disks[i].block.bytes)
  }

  ghost function Blocks(disks: seq<Disk>): set<BlockDevice> { set d | d in disks :: d.block }

  predicate BlocksDiffer(disks: seq<Disk>) { forall i, j :: 0 <= i < j < |disks| ==> disks[i].block != disks[j].block }

  predicate DeviceHas(disk: Disk, image: Bytes, part: Partition) {
    InDevice(part, disk.block.sectorSize, disk.block.sectors, |image|)
  }

  function Fault(disk: Disk, image: Bytes, part: Partition): StorageError {
    Device(DeviceFault(part, disk.block.sectorSize, disk.block.sectors, |image|))
  }

  function Room(disk: Disk, part: Partition): nat { Capacity(part, disk.block.sectorSize) }

  /** What `load_volume_tree` answers. */
  function LoadOutcome(disks: seq<Disk>, images: seq<Bytes>, volume: Bytes): Result<seq<FsNode>, StorageError>
    requires |images| == |disks|
  {
    match Locate(disks, volume)
    case Err(e) => Err(e)
    case Ok((d, part)) =>
      if DeviceHas(disks[d], images[d], part) then Ok(LoadedFrom(Region(images[d], part, disks[d].block.sectorSize)))
      else Err(Fault(disks[d], images[d], part))
  }

  /** What `save_mounted_volume` answers for this tree: Ok exactly when the volume is there and the tree has room. */
  function SaveOutcome(disks: seq<Disk>, images: seq<Bytes>, volume: Bytes, nodes: seq<FsNode>): Result<(), StorageError>
    requires |images| == |disks|
  {
    match Locate(disks, volume)
    case Err(e) => Err(e)
    case Ok((d, part)) =>
      if !DeviceHas(disks[d], images[d], part) then Err(Fault(disks[d], images[d], part))
      else if |Serialized(nodes)| > Room(disks[d], part) then Err(Device(OutOfSpace))
      else Ok(())
  }

  predicate HasRoom(disks: seq<Disk>, images: seq<Bytes>, volume: Bytes, nodes: seq<FsNode>)
    requires |images| == |disks|
  {
    && Locate(disks, volume).Ok?
    && var (d, part) := Locate(disks, volume).value;
       DeviceHas(disks[d], images[d], part) && |Serialized(nodes)| <= Room(disks[d], part)
  }

  /** Whether byte `j` of disk `i` belongs to the volume. */
  predicate InVolume(disks: seq<Disk>, volume: Bytes, i: nat, j: nat) {
    && Locate(disks, volume).Ok? && Locate(disks, volume).value.0 == i
    && InPartition(Locate(disks, volume).value.1, disks[i].block.sectorSize, j)
  }

  /** Only bytes of the volume differ. */
  ghost predicate OnlyVolume(disks: seq<Disk>, before: seq<Bytes>, after: seq<Bytes>, volume: Bytes) {
    && |before| == |after| == |disks|
    && (forall i :: 0 <= i < |disks| ==> |before[i]| == |after[i]|)
    && (forall i, j :: 0 <= i < |disks| && 0 <= j < |before[i]| && !InVolume(disks, volume, i, j) ==> after[i][j] == before[i][j])
  }

  /** What the volume's partition holds after a save of this tree. */
  ghost predicate Written(disks: seq<Disk>, before: seq<Bytes>, after: seq<Bytes>, volume: Bytes, nodes: seq<FsNode>)
    requires |before| == |after| == |disks|
  {
    Locate(disks, volume).Ok? ==>
      var (d, part) := Locate(disks, volume).value;
      var size := disks[d].block.sectorSize;
      DeviceHas(disks[d], before[d], part) ==>
        if |Serialized(nodes)| <= Room(disks[d], part)
        then Region(after[d], part, size) == Serialized(nodes) + Zeros(Room(disks[d], part) - |Serialized(nodes)|)
        else Region(after[d], part, size) == Serialized(nodes)[..Room(disks[d], part)]
  }

  ghost predicate SavedInto(disks: seq<Disk>, before: seq<Bytes>, after: seq<Bytes>, volume: Bytes, nodes: seq<FsNode>) {
    OnlyVolume(disks, before, after, volume) && Written(disks, before, after, volume, nodes)
  }

  lemma NothingSaved(disks: seq<Disk>, images: seq<Bytes>, volume: Bytes, nodes: seq<FsNode>)
    requires |images| == |disks| && Locate(disks, volume).Err?
    ensures SavedInto(disks, images, images, volume, nodes)
  {
  }

  /** What a partition write leaves is a save of the volume stored there. */
  lemma PartitionSaved(disks: seq<Disk>, before: seq<Bytes>, volume: Bytes, nodes: seq<FsNode>, now: Bytes)
    requires |before| == |disks| && Locate(disks, volume).Ok?
    requires var (d, part) := Locate(disks, volume).value;
             var size, bytes := disks[d].block.sectorSize, Serialized(nodes);
             var room := Capacity(part, size);
             && |now| == |before[d]|
             && (forall j :: 0 <= j < |now| && !InPartition(part, size, j) ==> now[j] == before[d][j])
             && (DeviceHas(disks[d], before[d], part) ==>
                   Region(now, part, size) == if |bytes| <= room then bytes + Zeros(room - |bytes|) else bytes[..room])
    ensures SavedInto(disks, before, before[Locate(disks, volume).value.0 := now], volume, nodes)
  {
    hide Locate, Serialized, Region, InPartition, Capacity, InDevice;
  }

  /**
   Memory and disk agree after a save exactly when the serialised tree has room in the partition, or the tree is
   the default one, which is also what a failed save leaves behind.
   */
  lemma SaveAgreesExactlyWhen(disks: seq<Disk>, before: seq<Bytes>, after: seq<Bytes>, volume: Bytes, nodes: seq<FsNode>)
    requires SavedInto(disks, before, after, volume, nodes) && AllUtf8(nodes) && Fits(nodes)
    requires LoadOutcome(disks, before, volume).Ok?
    ensures LoadOutcome(disks, after, volume) == Ok(nodes)
            <==> HasRoom(disks, before, volume, nodes) || nodes == DefaultTree()
    ensures !HasRoom(disks, before, volume, nodes) ==> LoadOutcome(disks, after, volume) == Ok(DefaultTree())
  {
    hide Locate, Serialized, Deserialized, DefaultTree, Region, AllUtf8, Fits, InDevice, Capacity;
    var (d, part) := Locate(disks, volume).value;
    var room := Room(disks[d], part);
    if |Serialized(nodes)| <= room {
      SavedLoads(nodes, room - |Serialized(nodes)|);
    } else {
      CutTreeFails(nodes, room);
    }
  }

  /** A save that has room loads as the tree exactly when its lengths fit. */
  lemma SaveLoadsExactlyWhen(disks: seq<Disk>, before: seq<Bytes>, after: seq<Bytes>, volume: Bytes, nodes: seq<FsNode>)
    requires SavedInto(disks, before, after, volume, nodes) && AllUtf8(nodes) && HasRoom(disks, before, volume, nodes)
    ensures LoadOutcome(disks, after, volume) == Ok(nodes) <==> Fits(nodes)
  {
    hide Locate, Serialized, Deserialized, DefaultTree, Region, AllUtf8, Fits, InDevice, Capacity;
    var (d, part) := Locate(disks, volume).value;
    SavedLoads(nodes, Room(disks[d], part) - |Serialized(nodes)|);
  }

  /** Two volumes with no byte in common. */
  predicate VolumesApart(disks: seq<Disk>, v: Bytes, w: Bytes) {
    var a, b := Locate(disks, v), Locate(disks, w);
    a.Ok? && b.Ok? && a.value.0 == b.value.0 ==>
      EndLba(a.value.1) <= b.value.1.startLba || EndLba(b.value.1) <= a.value.1.startLba
  }

  /** Saving one volume leaves every volume on other bytes as it was. */
  lemma OtherVolumeKept(disks: seq<Disk>, before: seq<Bytes>, after: seq<Bytes>, volume: Bytes, w: Bytes)
    requires OnlyVolume(disks, before, after, volume) && VolumesApart(disks, volume, w)
    ensures LoadOutcome(disks, after, w) == LoadOutcome(disks, before, w)
  {
    if Locate(disks, w).Ok? {
      var (d, part) := Locate(disks, w).value;
      var size := disks[d].block.sectorSize;
      forall j: nat | InPartition(part, size, j) ensures !InVolume(disks, volume, d, j) {
        ApartBytes(disks, volume, w, j);
      }
      hide Locate, InVolume, VolumesApart, Offset, LoadedFrom, InDevice;
      assert Region(after[d], part, size) == Region(before[d], part, size) by {
        var from, to := Offset(size, part.startLba), Offset(size, EndLba(part));
        if from < to <= |before[d]| {
          forall j | from <= j < to ensures after[d][j] == before[d][j] {
            assert InPartition(part, size, j);
          }
        }
      }
    }
  }

  lemma ApartBytes(disks: seq<Disk>, v: Bytes, w: Bytes, j: nat)
    requires VolumesApart(disks, v, w) && Locate(disks, w).Ok?
    requires InPartition(Locate(disks, w).value.1, disks[Locate(disks, w).value.0].block.sectorSize, j)
    ensures !InVolume(disks, v, Locate(disks, w).value.0, j)
  {
    hide Locate, Offset;
    if Locate(disks, v).Ok? && Locate(disks, v).value.0 == Locate(disks, w).value.0 {
      var a, b := Locate(disks, v).value.1, Locate(disks, w).value.1;
      var size := disks[Locate(disks, w).value.0].block.sectorSize;
      if EndLba(a) <= b.startLba { OffsetGrows(size, EndLba(a), b.startLba); }
      if EndLba(b) <= a.startLba { OffsetGrows(size, EndLba(b), a.startLba); }
    }
  }

  // ---------------------------------------------------------------- trees that are lost

  const VOLUME_ROOT: FsNode := FsNode(ROOT, DirectoryNode, [])

  /** The path of a name in the root directory is normalised, and free and allowed in a volume with just its root. */
  lemma NameInRoot(name: Bytes)
    requires IsPlainName(name)
    ensures var path := Absolute([name]);
            && path == [SLASH] + name && Normal(path) == path
            && IndexOf([VOLUME_ROOT], path).None? && ParentCheck([VOLUME_ROOT], path).Ok?
  {
    var k: Key, root := [name], VOLUME_ROOT;
    var path := Absolute(k);
    assert k[1..] == [] && Render(k[1..]) == [];
    assert AllPlain(k);
    PlainNormal(k);
    PlainNormal([]);
    TopDirectoriesAreTree([]);
    assert TopDirectories([]) == [root];
    assert Above(k) == [];
    AbsoluteLength(k);
    hide Names, Normal, Closed, Absolute;
    ParentCheckMeans([root], path);
    assert Places([root]) == [Place([], true)];
    assert Place(Above(Names(path)), true) in Places([root]);
    assert path != ROOT && IndexOf([root], path).None?;
  }

  /** A name of this many letters. */
  function Letters(n: nat): Bytes { seq(n, _ => 97) }

  /** A file whose path has 65536 bytes can be created, is stored without complaint, and does not come back. */
  lemma LongPathIsLost(padding: Bytes)
    ensures var path := Absolute([Letters(U16_COUNT - 1)]);
            var nodes := [VOLUME_ROOT, FsNode(path, FileNode, [])];
            && Normal(path) == path && CreateOutcome([VOLUME_ROOT], path, FileNode) == Ok(nodes) && AllUtf8(nodes)
            && Deserialized(Serialized(nodes) + padding) != Some(nodes)
  {
    var name := Letters(U16_COUNT - 1);
    var file := FsNode(Absolute([name]), FileNode, []);
    NameInRoot(name);
    hide Absolute, Normal, ParentCheck, Serialized, Deserialized, IsUtf8;
    AsciiIsUtf8(ROOT);
    AsciiIsUtf8(file.path);
    assert [VOLUME_ROOT] + [file] == [VOLUME_ROOT, file];
    assert |file.path| == U16_COUNT && !NodeFits([VOLUME_ROOT, file][1]);
    RoundTripExactlyWhen([VOLUME_ROOT, file], padding);
  }

  /** A volume with just its root, after `/a` is written with this data. */
  function WithFile(data: Bytes): seq<FsNode> { [VOLUME_ROOT, FsNode(Absolute([[97]]), FileNode, data)] }

  lemma WithFileWritten(data: Bytes)
    ensures Normal(Absolute([[97]])) == Absolute([[97]]) == [SLASH, 97]
    ensures WriteOutcome([VOLUME_ROOT], Absolute([[97]]), data) == Ok(WithFile(data))
  {
    NameInRoot([97]);
    hide Absolute, Normal, ParentCheck, IndexOf;
    assert [VOLUME_ROOT] + [FsNode(Absolute([[97]]), FileNode, data)] == WithFile(data);
  }

  lemma WithFileStored(data: Bytes)
    ensures AllUtf8(WithFile(data)) && (|data| < U32_COUNT ==> Fits(WithFile(data)))
    ensures |Serialized([VOLUME_ROOT])| == 24 && |Serialized(WithFile(data))| == 33 + |data|
  {
    WithFileWritten(data);
    hide Absolute, Normal, WriteOutcome, Serialized, IsUtf8;
    AsciiIsUtf8(ROOT);
    AsciiIsUtf8([SLASH, 97]);
    SmallSizes(VOLUME_ROOT, WithFile(data)[1]);
  }

  /**
   In every partition smaller than 4 GiB that stores a volume with just its root: writing `/a` with as many bytes
   as the partition holds is answered with "out of space", and the stored volume is gone.
   */
  lemma FullPartitionLosesTree(disks: seq<Disk>, before: seq<Bytes>, after: seq<Bytes>, volume: Bytes, data: Bytes)
    requires |before| == |disks| && LoadOutcome(disks, before, volume) == Ok([VOLUME_ROOT])
    requires var (d, part) := Locate(disks, volume).value; |data| == Room(disks[d], part) < U32_COUNT
    requires SavedInto(disks, before, after, volume, WithFile(data))
    ensures SaveOutcome(disks, before, volume, WithFile(data)) == Err(Device(OutOfSpace))
    ensures LoadOutcome(disks, after, volume) == Ok(DefaultTree()) != Ok([VOLUME_ROOT])
  {
    WithFileStored(data);
    DefaultSize();
    hide Locate, Serialized, DefaultTree, Region, AllUtf8, Fits, InDevice, LoadedFrom, WithFile, Capacity, Absolute;
    SaveAgreesExactlyWhen(disks, before, after, volume, WithFile(data));
  }

  lemma SmallSizes(root: FsNode, a: FsNode)
    requires |root.path| == 1 && |root.data| == 0 && |a.path| == 2
    ensures |Serialized([root])| == 24 && |Serialized([root, a])| == 33 + |a.data|
  {
    hide Le16, Le32;
    assert AllNodeBytes([]) == [];
    hide AllNodeBytes;
    assert [root] + [] == [root] && [a] + [] == [a] && [root] + [a] == [root, a];
    OneMoreRecord(root, []);
    OneMoreRecord(a, []);
    OneMoreRecord(root, [a]);
  }

  lemma DefaultSize()
    ensures |DefaultTree()| == 8
  {
  }

  // ---------------------------------------------------------------- state

  function VolumeNames(mounted: seq<MountedFs>): seq<Bytes> { seq(|mounted|, i requires 0 <= i < |mounted| => mounted[i].volume) }

  ghost function Trees(mounted: seq<MountedFs>): (trees: seq<seq<FsNode>>)
    reads mounted
    ensures |trees| == |mounted|
  {
    seq(|mounted|, i requires 0 <= i < |mounted| reads mounted => mounted[i].nodes)
  }

  /** The tree the operations see: the mounted one, or else the one they would load. */
  function ViewOf(disks: seq<Disk>, names: seq<Bytes>, trees: seq<seq<FsNode>>, images: seq<Bytes>, volume: Bytes)
    : Result<seq<FsNode>, StorageError>
    requires |names| == |trees| && |images| == |disks|
  {
    match FirstNamed(names, volume)
    case Some(i) => Ok(trees[i])
    case None => LoadOutcome(disks, images, volume)
  }

  /** A volume of another name on other bytes. */
  predicate Elsewhere(disks: seq<Disk>, volume: Bytes, w: Bytes) {
    !SameName(volume, w) && VolumesApart(disks, volume, w)
  }

  lemma MountingHidesNothing(disks: seq<Disk>, names: seq<Bytes>, trees: seq<seq<FsNode>>, images: seq<Bytes>,
                             volume: Bytes, tree: seq<FsNode>, w: Bytes)
    requires |names| == |trees| && |images| == |disks| && !SameName(volume, w)
    ensures ViewOf(disks, names + [volume], trees + [tree], images, w) == ViewOf(disks, names, trees, images, w)
  {
    hide SameName, LoadOutcome;
    assert (names + [volume])[..|names|] == names;
  }

  lemma SavingHidesNothing(disks: seq<Disk>, names: seq<Bytes>, trees: seq<seq<FsNode>>, before: seq<Bytes>, after: seq<Bytes>,
                           volume: Bytes, at: nat, tree: seq<FsNode>, w: Bytes)
    requires |names| == |trees| && OnlyVolume(disks, before, after, volume)
    requires FirstNamed(names, volume) == Some(at) && Elsewhere(disks, volume, w)
    ensures ViewOf(disks, names, trees[at := tree], after, w) == ViewOf(disks, names, trees, before, w)
  {
    OtherVolumeKept(disks, before, after, volume, w);
    SameNameAgree(names[at], volume, w);
    SameNameSwaps(names[at], w);
    SameNameSwaps(volume, w);
    hide SameName, LoadOutcome, OnlyVolume, VolumesApart;
  }

  lemma SameNameSwaps(a: Bytes, b: Bytes)
    ensures SameName(a, b) <==> SameName(b, a)
  {
  }

  /** How an operation ends: with the tree's refusal, or with the new tree in memory and what its save answers. */
  ghost predicate Carried(disks: seq<Disk>, before: seq<Bytes>, after: seq<Bytes>, volume: Bytes, was: seq<FsNode>,
                          outcome: Result<seq<FsNode>, TreeError>, now: Result<seq<FsNode>, StorageError>, r: Result<(), StorageError>)
    requires |before| == |after| == |disks|
  {
    match outcome
    case Err(e) => r == Err(Tree(e)) && now == Ok(was) && after == before
    case Ok(tree) => r == SaveOutcome(disks, before, volume, tree) && now == Ok(tree) && SavedInto(disks, before, after, volume, tree)
  }

  /**
   What an operation that passed its checks leaves: it answers Ok exactly when the new tree has room, and then
   (when its lengths fit) loading gives the new tree; without room loading gives the default tree.
   */
  lemma CarriedMeans(disks: seq<Disk>, before: seq<Bytes>, after: seq<Bytes>, volume: Bytes, was: seq<FsNode>,
                     tree: seq<FsNode>, now: Result<seq<FsNode>, StorageError>, r: Result<(), StorageError>)
    requires |before| == |after| == |disks| && Carried(disks, before, after, volume, was, Ok(tree), now, r)
    ensures r.Ok? <==> HasRoom(disks, before, volume, tree)
    ensures AllUtf8(tree) && Fits(tree) && r.Ok? ==> LoadOutcome(disks, after, volume) == now == Ok(tree)
    ensures AllUtf8(tree) && Fits(tree) && LoadOutcome(disks, before, volume).Ok? && r.Err? ==>
      r == Err(Device(OutOfSpace)) && LoadOutcome(disks, after, volume) == Ok(DefaultTree())
  {
    hide Locate, Serialized, DefaultTree, Region, AllUtf8, Fits, InDevice, LoadedFrom;
    if AllUtf8(tree) && Fits(tree) {
      if r.Ok? { SaveLoadsExactlyWhen(disks, before, after, volume, tree); }
      if LoadOutcome(disks, before, volume).Ok? { SaveAgreesExactlyWhen(disks, before, after, volume, tree); }
    }
  }

  class StorageState {
    var disks: seq<Disk>
    var mounted: seq<MountedFs>

    constructor (disks: seq<Disk>)
      requires BlocksDiffer(disks)
      ensures Valid() && this.disks == disks && mounted == []
    {
      this.disks, mounted := disks, [];
    }

    ghost predicate Valid()
      reads this
    {
      BlocksDiffer(disks) && forall i, j :: 0 <= i < j < |mounted| ==> mounted[i] != mounted[j]
    }

    function MountedAt(volume: Bytes): (r: Option<nat>)
      reads this
      ensures r.Some? ==> r.value < |mounted|
    {
      FirstNamed(VolumeNames(mounted), volume)
    }

    ghost function View(volume: Bytes): Result<seq<FsNode>, StorageError>
      reads this, mounted, Blocks(disks)
    {
      ViewOf(disks, VolumeNames(mounted), Trees(mounted), Images(disks), volume)
    }

    /** `load_volume_tree`. */
    method Load(volume: Bytes) returns (r: Result<seq<FsNode>, StorageError>)
      ensures r == LoadOutcome(disks, Images(disks), volume)
    {
      hide Locate, Deserialized, DefaultTree, Region, DeviceFault, InDevice;
      var found := FindVolume(disks, volume);
      if found.Err? { return Err(found.error); }
      var (d, part) := found.value;
      assert Images(disks)[d] == disks[d].block.bytes;
      var bytes := disks[d].block.ReadPartition(part);
      if bytes.Err? { return Err(Device(bytes.error)); }
      var nodes := Deserialize(bytes.value);
      if nodes.None? { return Ok(DefaultTree()); }
      return Ok(nodes.value);
    }

    /** `save_mounted_volume`: its answer, what the partition then holds, and that no other byte changes. */
    method Save(volume: Bytes) returns (r: Result<(), StorageError>)
      requires Valid()
      modifies Blocks(disks)
      ensures MountedAt(volume).None? ==> r == Err(NotMounted) && Images(disks) == old(Images(disks))
      ensures MountedAt(volume).Some? ==> (
        var nodes := mounted[MountedAt(volume).value].nodes;
        && r == SaveOutcome(disks, old(Images(disks)), volume, nodes)
        && SavedInto(disks, old(Images(disks)), Images(disks), volume, nodes))
    {
      hide Locate, Serialized, Region, InPartition, Capacity, InDevice, DeviceFault, FirstNamed, OnlyVolume, Written;
      var at := MountedAt(volume);
      if at.None? { return Err(NotMounted); }
      var nodes := mounted[at.value].nodes;
      var found := FindVolume(disks, volume);
      ghost var before := Images(disks);
      if found.Err? {
        NothingSaved(disks, before, volume, nodes);
        return Err(found.error);
      }
      var (d, part) := found.value;
      var bytes := Serialize(nodes);
      assert before[d] == disks[d].block.bytes && disks[d] in disks;
      var wrote := disks[d].block.WritePartition(part, bytes);
      assert Images(disks) == before[d := disks[d].block.bytes];
      PartitionSaved(disks, before, volume, nodes, disks[d].block.bytes);
      if wrote.Err? { return Err(Device(wrote.error)); }
      return Ok(());
    }

    /** `ensure_volume_mounted` for a writable volume. */
    method EnsureMounted(volume: Bytes) returns (r: Result<(), StorageError>)
      requires Valid()
      modifies this`mounted
      ensures Valid()
      ensures r == match old(View(volume)) case Err(e) => Err(e) case Ok(_) => Ok(())
      ensures r.Err? || old(MountedAt(volume)).Some? ==> mounted == old(mounted)
      ensures r.Ok? ==> MountedAt(volume).Some? && mounted[MountedAt(volume).value].nodes == old(View(volume)).value
      ensures forall m :: m in mounted && m !in old(mounted) ==> fresh(m)
      ensures forall w :: !SameName(volume, w) ==> View(w) == old(View(w))
    {
      hide Locate, SameName, LoadOutcome;
      ghost var names, trees, images := VolumeNames(mounted), Trees(mounted), Images(disks);
      if MountedAt(volume).Some? { return Ok(()); }
      var tree := Load(volume);
      assert Trees(mounted) == trees && Images(disks) == images;
      if tree.Err? { return Err(tree.error); }
      var m := new MountedFs(volume, tree.value);
      mounted := mounted + [m];
      assert VolumeNames(mounted) == names + [volume];
      assert Trees(mounted) == trees + [tree.value] && Images(disks) == images;
      LastNamed(names, volume);
      forall w | !SameName(volume, w) ensures View(w) == old(View(w)) {
        MountingHidesNothing(disks, names, trees, images, volume, tree.value, w);
      }
      return Ok(());
    }

    /** The saving step of every operation, once the mounted tree has changed from what `trees` has for the volume. */
    method Store(volume: Bytes, ghost trees: seq<seq<FsNode>>) returns (r: Result<(), StorageError>)
      requires Valid() && MountedAt(volume).Some? && |trees| == |mounted|
      requires Trees(mounted) == trees[MountedAt(volume).value := mounted[MountedAt(volume).value].nodes]
      modifies Blocks(disks)
      ensures var nodes := mounted[MountedAt(volume).value].nodes;
              && r == SaveOutcome(disks, old(Images(disks)), volume, nodes)
              && SavedInto(disks, old(Images(disks)), Images(disks), volume, nodes)
              && View(volume) == Ok(nodes)
      ensures forall w :: Elsewhere(disks, volume, w) ==> View(w) == ViewOf(disks, VolumeNames(mounted), trees, old(Images(disks)), w)
    {
      hide Locate, SameName, FirstNamed, LoadOutcome, SaveOutcome, Written, VolumesApart;
      ghost var at, images, names := MountedAt(volume).value, Images(disks), VolumeNames(mounted);
      ghost var nodes := mounted[at].nodes;
      ghost var now := Trees(mounted);
      r := Save(volume);
      assert Trees(mounted) == now == trees[at := nodes];
      forall w | Elsewhere(disks, volume, w) ensures View(w) == ViewOf(disks, names, trees, images, w) {
        SavingHidesNothing(disks, names, trees, images, Images(disks), volume, at, nodes, w);
      }
    }

    /** `fs_create` and `fs_mkdir` on one volume. */
    method FsCreate(volume: Bytes, rel: Bytes, kind: FsNodeKind) returns (r: Result<(), StorageError>)
      requires Valid() && Normal(rel) == rel
      modifies this`mounted, mounted, Blocks(disks)
      ensures Valid()
      ensures old(View(volume)).Err? ==> r == Err(old(View(volume)).error) && mounted == old(mounted) && Images(disks) == old(Images(disks))
      ensures old(View(volume)).Ok? ==> (
        var was := old(View(volume)).value;
        && Carried(disks, old(Images(disks)), Images(disks), volume, was, CreateOutcome(was, rel, kind), View(volume), r)
        && (IsTree(was) ==> View(volume).Ok? && IsTree(View(volume).value)))
      ensures forall w :: Elsewhere(disks, volume, w) ==> View(w) == old(View(w))
    {
      hide Locate, SameName, FirstNamed, LoadOutcome, SavedInto, SaveOutcome, VolumesApart, IsTree, ParentCheck, Normal, NothingBelow, Renamed, Without, SafeRename;
      r := EnsureMounted(volume);
      if r.Err? { return; }
      var at := MountedAt(volume).value;
      var m := mounted[at];
      assert m in mounted;
      ghost var trees, images := Trees(mounted), Images(disks);
      var done := m.Create(rel, kind);
      assert Trees(mounted) == trees[at := m.nodes] && Images(disks) == images;
      if done.Err? { return Err(Tree(done.error)); }
      r := Store(volume, trees);
    }

    /** `fs_write` on one volume. */
    method FsWrite(volume: Bytes, rel: Bytes, data: Bytes) returns (r: Result<(), StorageError>)
      requires Valid() && Normal(rel) == rel
      modifies this`mounted, mounted, Blocks(disks)
      ensures Valid()
      ensures old(View(volume)).Err? ==> r == Err(old(View(volume)).error) && mounted == old(mounted) && Images(disks) == old(Images(disks))
      ensures old(View(volume)).Ok? ==> (
        var was := old(View(volume)).value;
        && Carried(disks, old(Images(disks)), Images(disks), volume, was, WriteOutcome(was, rel, data), View(volume), r)
        && (IsTree(was) ==> View(volume).Ok? && IsTree(View(volume).value)))
      ensures forall w :: Elsewhere(disks, volume, w) ==> View(w) == old(View(w))
    {
      hide Locate, SameName, FirstNamed, LoadOutcome, SavedInto, SaveOutcome, VolumesApart, IsTree, ParentCheck, Normal, NothingBelow, Renamed, Without, SafeRename;
      r := EnsureMounted(volume);
      if r.Err? { return; }
      var at := MountedAt(volume).value;
      var m := mounted[at];
      assert m in mounted;
      ghost var trees, images := Trees(mounted), Images(disks);
      var done := m.Write(rel, data);
      assert Trees(mounted) == trees[at := m.nodes] && Images(disks) == images;
      if done.Err? { return Err(Tree(done.error)); }
      r := Store(volume, trees);
    }

    /** `fs_delete` on one volume; the root is refused before the volume is looked at. */
    method FsDelete(volume: Bytes, rel: Bytes) returns (r: Result<(), StorageError>)
      requires Valid() && Normal(rel) == rel
      modifies this`mounted, mounted, Blocks(disks)
      ensures Valid()
      ensures rel == ROOT ==> r == Err(Tree(CannotRemoveRoot)) && mounted == old(mounted) && Images(disks) == old(Images(disks)) && View(volume) == old(View(volume))
      ensures rel != ROOT && old(View(volume)).Err? ==> r == Err(old(View(volume)).error) && mounted == old(mounted) && Images(disks) == old(Images(disks))
      ensures rel != ROOT && old(View(volume)).Ok? ==> (
        var was := old(View(volume)).value;
        && Carried(disks, old(Images(disks)), Images(disks), volume, was, DeleteOutcome(was, rel), View(volume), r)
        && (IsTree(was) ==> View(volume).Ok? && IsTree(View(volume).value)))
      ensures forall w :: Elsewhere(disks, volume, w) ==> View(w) == old(View(w))
    {
      hide Locate, SameName, FirstNamed, LoadOutcome, SavedInto, SaveOutcome, VolumesApart, IsTree, ParentCheck, Normal, NothingBelow, Renamed, Without, SafeRename;
      if rel == ROOT { return Err(Tree(CannotRemoveRoot)); }
      r := EnsureMounted(volume);
      if r.Err? { return; }
      var at := MountedAt(volume).value;
      var m := mounted[at];
      assert m in mounted;
      ghost var trees, images := Trees(mounted), Images(disks);
      var done := m.Delete(rel);
      assert Trees(mounted) == trees[at := m.nodes] && Images(disks) == images;
      if done.Err? { return Err(Tree(done.error)); }
      r := Store(volume, trees);
    }

    /** `fs_rename` within one volume. */
    method FsRename(volume: Bytes, from: Bytes, to: Bytes) returns (r: Result<(), StorageError>)
      requires Valid() && Normal(from) == from && Normal(to) == to
      modifies this`mounted, mounted, Blocks(disks)
      ensures Valid()
      ensures old(View(volume)).Err? ==> r == Err(old(View(volume)).error) && mounted == old(mounted) && Images(disks) == old(Images(disks))
      ensures old(View(volume)).Ok? ==> (
        var was := old(View(volume)).value;
        && Carried(disks, old(Images(disks)), Images(disks), volume, was, RenameOutcome(was, from, to), View(volume), r)
        && View(volume).Ok?
        && (IsTree(was) ==> (IsTree(View(volume).value) <==> RenameOutcome(was, from, to).Ok? ==> SafeRename(from, to))))
      ensures forall w :: Elsewhere(disks, volume, w) ==> View(w) == old(View(w))
    {
      hide Locate, SameName, FirstNamed, LoadOutcome, SavedInto, SaveOutcome, VolumesApart, IsTree, ParentCheck, Normal, NothingBelow, Renamed, Without, SafeRename;
      r := EnsureMounted(volume);
      if r.Err? { return; }
      var at := MountedAt(volume).value;
      var m := mounted[at];
      assert m in mounted;
      ghost var trees, images := Trees(mounted), Images(disks);
      var done := m.Rename(from, to);
      assert Trees(mounted) == trees[at := m.nodes] && Images(disks) == images;
      if done.Err? { return Err(Tree(done.error)); }
      r := Store(volume, trees);
    }
  }

  lemma LastNamed(names: seq<Bytes>, name: Bytes)
    requires FirstNamed(names, name).None?
    ensures FirstNamed(names + [name], name) == Some(|names|)
  {
    assert (names + [name])[..|names|] == names;
  }
}
