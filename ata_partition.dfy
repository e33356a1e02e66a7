/**
 * `ATAPartition` of drivers/ata/src/partition.rs: a window of a disk's
 * sectors, addressed from the partition's first sector and refused past
 * its length.
 */
module AtaPartition {
  import opened Wrappers
  import opened BlockDevice
  import opened AtaBus
  import opened AtaDisk

  /** The disk sector a partition-relative address names, or `OutOfRange` past the partition's length. */
  function PartitionLba(p: PartitionDescriptor, lba: nat): (r: Result<nat, BlockDeviceError>)
    ensures r.Err? <==> lba >= p.sectors
    ensures r.Err? ==> r.error == OutOfRange
    ensures r.Ok? ==> p.startLba <= r.value < p.startLba + p.sectors && r.value - p.startLba == lba
  {
    if lba >= p.sectors then Err(OutOfRange) else Ok(lba + p.startLba)
  }

  /** Every sector of `start_lba .. start_lba + sectors` is reached, each from one address. */
  lemma PartitionWindow(p: PartitionDescriptor, lba: nat, other: nat, sector: nat)
    ensures p.startLba <= sector < p.startLba + p.sectors ==> PartitionLba(p, sector - p.startLba) == Ok(sector)
    ensures PartitionLba(p, lba).Ok? && PartitionLba(p, lba) == PartitionLba(p, other) ==> lba == other
  {
  }

  /** A partition that ends before another starts never reaches a sector of it. */
  lemma PartitionsApart(p: PartitionDescriptor, q: PartitionDescriptor, lba: nat, other: nat)
    requires p.startLba + p.sectors <= q.startLba
    ensures PartitionLba(p, lba).Ok? && PartitionLba(q, other).Ok? ==> PartitionLba(p, lba) != PartitionLba(q, other)
  {
  }

  /**
   * A partition placed by `create_partition` (start `NewStart(ds)`) shares no
   * sector with any partition `ds` already held, unless the start wrapped
   * around `u32`.
   */
  lemma CreatedPartitionApart(ds: seq<PartitionDescriptor>, d: PartitionDescriptor, sectors: nat, lba: nat, other: nat)
    requires MaxEnd(ds) + 1 < TWO_32 && d in ds
    ensures var created := PartitionDescriptor(NewStart(ds), sectors);
      PartitionLba(d, lba).Ok? && PartitionLba(created, other).Ok? ==> PartitionLba(d, lba) != PartitionLba(created, other)
  {
    NewStartAfterAll(ds, d);
    PartitionsApart(d, PartitionDescriptor(NewStart(ds), sectors), lba, other);
  }

  class Partition {
    /** The disk the partition lives on. */
    const disk: Disk
    /** The partition's table entry. */
    const descriptor: PartitionDescriptor

    constructor (disk: Disk, descriptor: PartitionDescriptor)
      ensures this.disk == disk && this.descriptor == descriptor
    {
      this.disk := disk;
      this.descriptor := descriptor;
    }

    /** `read_sector`: past the partition's length, `OutOfRange` and no disk access; otherwise the disk's sector `lba + start_lba`. */
    method ReadSector(lba: nat, resp: TransferResponse) returns (r: Result<Sector, BlockDeviceError>)
      requires lba < descriptor.sectors ==> CheckLbaCorrected(disk.descriptor, lba + descriptor.startLba) != Lba48Only
      modifies disk.bus`writes
      ensures lba >= descriptor.sectors ==> r == Err(OutOfRange) && disk.bus.writes == old(disk.bus.writes)
      ensures lba < descriptor.sectors ==>
        r == DiskReadOutcome(disk.descriptor, lba + descriptor.startLba, resp)
        && disk.bus.writes == old(disk.bus.writes) + ReadWrites(disk.master, disk.descriptor, lba + descriptor.startLba)
    {
      var target := PartitionLba(descriptor, lba);
      if target.Err? {
        return Err(target.error);
      }
      r := disk.ReadSector(target.value, resp);
    }

    /** `write_sector`: past the partition's length, `OutOfRange` and nothing written; otherwise the buffer goes to disk sector `lba + start_lba`. */
    method WriteSector(lba: nat, buffer: Sector, resp: TransferResponse) returns (r: Result<(), BlockDeviceError>)
      requires lba < descriptor.sectors ==> CheckLbaCorrected(disk.descriptor, lba + descriptor.startLba) != Lba48Only
      modifies disk.bus`writes
      ensures lba >= descriptor.sectors ==> r == Err(OutOfRange) && disk.bus.writes == old(disk.bus.writes)
      ensures lba < descriptor.sectors ==>
        r == DiskWriteOutcome(disk.descriptor, lba + descriptor.startLba, resp)
        && disk.bus.writes == old(disk.bus.writes) + WriteWrites(disk.master, disk.descriptor, lba + descriptor.startLba, buffer, resp)
    {
      var target := PartitionLba(descriptor, lba);
      if target.Err? {
        return Err(target.error);
      }
      r := disk.WriteSector(target.value, buffer, resp);
    }
  }
}
