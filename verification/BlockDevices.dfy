/** A sector-addressed memory device and the loops that fill and read one partition of it. */
module BlockDevices {
  import opened Machine
  import opened Paths

  datatype Partition = Partition(name: Bytes, startLba: U64, sectorCount: U64)

  datatype DeviceError = LbaOutOfRange | BadBufferSize | PastDeviceEnd | OutOfSpace

  /** Byte offset of a sector. */
  function Offset(sectorSize: nat, lba: nat): nat { lba * sectorSize }

  lemma OffsetSteps(sectorSize: nat, lba: nat)
    ensures Offset(sectorSize, lba + 1) == Offset(sectorSize, lba) + sectorSize
  {
  }

  lemma OffsetGrows(sectorSize: nat, a: nat, b: nat)
    requires a <= b
    ensures Offset(sectorSize, a) <= Offset(sectorSize, b)
  {
    var d := b - a;
    assert b * sectorSize == a * sectorSize + d * sectorSize;
  }

  function EndLba(part: Partition): U64 { SatAdd(part.startLba, part.sectorCount) }

  /** Every sector of the partition exists on the device and has all its bytes. */
  predicate InDevice(part: Partition, sectorSize: nat, sectors: nat, size: nat) {
    part.startLba == EndLba(part) || (EndLba(part) <= sectors && Offset(sectorSize, EndLba(part)) <= size)
  }

  /** Whether byte `j` of the device belongs to the partition. */
  predicate InPartition(part: Partition, sectorSize: nat, j: nat) {
    Offset(sectorSize, part.startLba) <= j < Offset(sectorSize, EndLba(part))
  }

  function Capacity(part: Partition, sectorSize: nat): nat {
    OffsetGrows(sectorSize, part.startLba, EndLba(part));
    Offset(sectorSize, EndLba(part)) - Offset(sectorSize, part.startLba)
  }

  /** The bytes of a partition that is in the device. */
  function Region(bytes: Bytes, part: Partition, sectorSize: nat): Bytes {
    var from, to := Offset(sectorSize, part.startLba), Offset(sectorSize, EndLba(part));
    if from < to <= |bytes| then bytes[from..to] else []
  }

  /** Why the sector loops stop on a partition that is not in the device: no such sector, or not all its bytes. */
  function DeviceFault(part: Partition, sectorSize: nat, sectors: nat, size: nat): DeviceError {
    if sectors <= part.startLba || Offset(sectorSize, sectors) <= size then LbaOutOfRange else PastDeviceEnd
  }

  /** The first sector that cannot be reached stops the loop with that fault. */
  lemma FaultAt(part: Partition, sectorSize: nat, sectors: nat, size: nat, lba: nat)
    requires part.startLba <= lba < EndLba(part)
    requires lba > part.startLba ==> lba <= sectors && Offset(sectorSize, lba) <= size
    requires lba >= sectors || Offset(sectorSize, lba) + sectorSize > size
    ensures !InDevice(part, sectorSize, sectors, size)
    ensures DeviceFault(part, sectorSize, sectors, size) == if lba >= sectors then LbaOutOfRange else PastDeviceEnd
  {
    OffsetSteps(sectorSize, lba);
    OffsetGrows(sectorSize, lba + 1, EndLba(part));
    if lba < sectors { OffsetGrows(sectorSize, lba + 1, sectors); }
  }

  lemma InDeviceWhen(part: Partition, sectorSize: nat, sectors: nat, size: nat)
    requires EndLba(part) > part.startLba ==> EndLba(part) <= sectors && Offset(sectorSize, EndLba(part)) <= size
    ensures InDevice(part, sectorSize, sectors, size)
  {
  }

  /** Byte `i` of the data padded with zeros. */
  function Padded(data: Bytes, i: nat): Byte { if i < |data| then data[i] else 0 }

  function Zeros(n: nat): Bytes { seq(n, _ => 0) }

  /** The region of a partition whose bytes are the padded data. */
  lemma FilledRegion(bytes: Bytes, part: Partition, sectorSize: nat, data: Bytes)
    requires Capacity(part, sectorSize) > 0 ==> Offset(sectorSize, EndLba(part)) <= |bytes|
    requires forall j :: 0 <= j < |bytes| && InPartition(part, sectorSize, j) ==>
      bytes[j] == Padded(data, j - Offset(sectorSize, part.startLba))
    ensures |data| <= Capacity(part, sectorSize) ==>
      Region(bytes, part, sectorSize) == data + Zeros(Capacity(part, sectorSize) - |data|)
    ensures |data| > Capacity(part, sectorSize) ==> Region(bytes, part, sectorSize) == data[..Capacity(part, sectorSize)]
  {
    hide Offset, EndLba;
    var base, room, region := Offset(sectorSize, part.startLba), Capacity(part, sectorSize), Region(bytes, part, sectorSize);
    assert |region| == room;
    forall k | 0 <= k < room ensures region[k] == Padded(data, k) {
      assert InPartition(part, sectorSize, base + k);
    }
  }

  class BlockDevice {
    const sectorSize: nat
    const sectors: U64
    var bytes: Bytes
    var dirty: bool

    constructor (sectors: U64, sectorSize: nat, image: Bytes)
      ensures this.sectors == sectors && this.sectorSize == sectorSize && bytes == image && !dirty
    {
      this.sectors, this.sectorSize := sectors, sectorSize;
      this.bytes, this.dirty := image, false;
    }

    predicate Has(part: Partition)
      reads this
    {
      InDevice(part, sectorSize, sectors, |bytes|)
    }

    /** The sector's bytes; a device is never near 2^64 bytes long, so saturating offsets fail the same way. */
    method ReadSector(lba: U64, size: nat) returns (r: Result<Bytes, DeviceError>)
      ensures r.Ok? <==> lba < sectors && size == sectorSize && Offset(sectorSize, lba) + sectorSize <= |bytes|
      ensures r.Ok? ==> |r.value| == sectorSize && forall k :: 0 <= k < sectorSize ==> r.value[k] == bytes[Offset(sectorSize, lba) + k]
      ensures r.Err? && size == sectorSize ==> r.error == if lba >= sectors then LbaOutOfRange else PastDeviceEnd
    {
      if lba >= sectors { return Err(LbaOutOfRange); }
      if size != sectorSize { return Err(BadBufferSize); }
      var start := Offset(sectorSize, lba);
      if start + sectorSize > |bytes| { return Err(PastDeviceEnd); }
      return Ok(bytes[start..start + sectorSize]);
    }

    method WriteSector(lba: U64, data: Bytes) returns (r: Result<(), DeviceError>)
      modifies this`bytes, this`dirty
      ensures r.Ok? <==> lba < sectors && |data| == sectorSize && Offset(sectorSize, lba) + sectorSize <= |old(bytes)|
      ensures |bytes| == |old(bytes)|
      ensures r.Ok? ==> dirty && forall j :: 0 <= j < |bytes| ==>
        bytes[j] == if Offset(sectorSize, lba) <= j < Offset(sectorSize, lba) + sectorSize then data[j - Offset(sectorSize, lba)] else old(bytes)[j]
      ensures r.Err? ==> bytes == old(bytes) && dirty == old(dirty)
      ensures r.Err? && |data| == sectorSize ==> r.error == if lba >= sectors then LbaOutOfRange else PastDeviceEnd
    {
      hide Offset;
      if lba >= sectors { return Err(LbaOutOfRange); }
      if |data| != sectorSize { return Err(BadBufferSize); }
      var start := Offset(sectorSize, lba);
      if start + sectorSize > |bytes| { return Err(PastDeviceEnd); }
      bytes := bytes[..start] + data + bytes[start + sectorSize..];
      dirty := true;
      return Ok(());
    }

    /** `read_partition_bytes`. */
    method ReadPartition(part: Partition) returns (r: Result<Bytes, DeviceError>)
      ensures r.Ok? <==> Has(part)
      ensures r.Ok? ==> r.value == Region(bytes, part, sectorSize)
      ensures r.Err? ==> r.error == DeviceFault(part, sectorSize, sectors, |bytes|)
    {
      hide Offset, InDevice, DeviceFault;
      var lba := part.startLba;
      var last := EndLba(part);
      var out := [];
      var base := Offset(sectorSize, lba);
      while lba < last
        invariant part.startLba <= lba <= last
        invariant lba > part.startLba ==> lba <= sectors && Offset(sectorSize, lba) <= |bytes|
        invariant |out| == Offset(sectorSize, lba) - base
        invariant forall k :: 0 <= k < |out| ==> base + k < |bytes| && out[k] == bytes[base + k]
        decreases last - lba
      {
        OffsetSteps(sectorSize, lba);
        OffsetGrows(sectorSize, lba + 1, last);
        var sector := ReadSector(lba, sectorSize);
        if sector.Err? {
          FaultAt(part, sectorSize, sectors, |bytes|, lba);
          return Err(sector.error);
        }
        out := out + sector.value;
        lba := SatAdd(lba, 1);
      }
      assert Has(part) by { InDeviceWhen(part, sectorSize, sectors, |bytes|); }
      return Ok(out);
    }

    /**
     `write_partition_bytes`. Whatever the outcome, no byte outside the partition changes. Data that is too
     long is only noticed at the end, when its first bytes have replaced all of the partition.
     */
    method WritePartition(part: Partition, data: Bytes) returns (r: Result<(), DeviceError>)
      modifies this`bytes, this`dirty
      ensures |bytes| == |old(bytes)|
      ensures forall j :: 0 <= j < |bytes| && !InPartition(part, sectorSize, j) ==> bytes[j] == old(bytes)[j]
      ensures r.Ok? <==> Has(part) && |data| <= Capacity(part, sectorSize)
      ensures r.Err? ==> r.error == if Has(part) then OutOfSpace else DeviceFault(part, sectorSize, sectors, |bytes|)
      ensures r.Ok? ==> Region(bytes, part, sectorSize) == data + Zeros(Capacity(part, sectorSize) - |data|)
      ensures Has(part) && |data| > Capacity(part, sectorSize) ==>
        Region(bytes, part, sectorSize) == data[..Capacity(part, sectorSize)]
    {
      hide Offset, InDevice, DeviceFault;
      var lba := part.startLba;
      var last := EndLba(part);
      var at := 0;
      ghost var base := Offset(sectorSize, lba);
      OffsetGrows(sectorSize, lba, last);
      while lba < last
        invariant part.startLba <= lba <= last
        invariant lba > part.startLba ==> lba <= sectors && Offset(sectorSize, lba) <= |bytes|
        invariant base <= Offset(sectorSize, lba) <= Offset(sectorSize, last)
        invariant at == Min(Offset(sectorSize, lba) - base, |data|)
        invariant |bytes| == |old(bytes)|
        invariant forall j :: 0 <= j < |bytes| ==>
          bytes[j] == if base <= j < Offset(sectorSize, lba) then Padded(data, j - base) else old(bytes)[j]
        decreases last - lba
      {
        OffsetSteps(sectorSize, lba);
        OffsetGrows(sectorSize, lba + 1, last);
        var n := Min(sectorSize, |data| - at);
        var scratch := data[at..at + n] + Zeros(sectorSize - n);
        var wrote := WriteSector(lba, scratch);
        if wrote.Err? {
          FaultAt(part, sectorSize, sectors, |bytes|, lba);
          return Err(wrote.error);
        }
        at := at + n;
        lba := SatAdd(lba, 1);
      }
      assert Has(part) by { InDeviceWhen(part, sectorSize, sectors, |bytes|); }
      FilledRegion(bytes, part, sectorSize, data);
      hide Region, Padded, Capacity, Zeros;
      if at < |data| { return Err(OutOfSpace); }
      return Ok(());
    }
  }
}
