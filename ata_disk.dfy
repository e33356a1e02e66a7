/**
 * `ATADisk` of drivers/ata/src/disk.rs: sector access through the disk's
 * bus, the boot signature, and reading and extending the partition table
 * of the Legacy Master Boot Record (section 5.2.1 of the UEFI
 * Specification): four 16-byte entries at byte 446, signature `55 AA` at
 * byte 510.
 */
module AtaDisk {
  import opened Wrappers
  import opened BlockDevice
  import opened AtaConstants
  import opened AtaBus
  import opened Digits

  /** `PartitionDescriptor` (parsed outside this model): the two fields the driver reads. */
  datatype PartitionDescriptor = PartitionDescriptor(startLba: nat, sectors: nat)

  /** The offset of the partition table in the MBR. */
  const TABLE: nat := 446
  /** The size of one partition entry. */
  const ENTRY_SIZE: nat := 16
  const TWO_32: nat := 0x1_0000_0000

  // ---------------------------------------------------------------- sector access

  /** `ATADisk::read_sector`: the bus's result, with bus errors mapped by `to_device_error`. */
  function DiskReadOutcome(d: DiskDescriptor, lba: nat, resp: TransferResponse): Result<Sector, BlockDeviceError> {
    if CheckLbaCorrected(d, lba) != InRange then Err(OutOfRange)
    else match ReadOutcome(resp)
      case Ok(s) => Ok(s)
      case Err(e) => Err(BusToDeviceError(e))
  }

  /** `ATADisk::write_sector`: the bus's result, with bus errors mapped by `to_device_error`. */
  function DiskWriteOutcome(d: DiskDescriptor, lba: nat, resp: TransferResponse): Result<(), BlockDeviceError> {
    if CheckLbaCorrected(d, lba) != InRange then Err(OutOfRange)
    else match WriteOutcome(resp)
      case Ok(_) => Ok(())
      case Err(e) => Err(BusToDeviceError(e))
  }

  /** The port writes of a sector read. */
  function ReadWrites(master: bool, d: DiskDescriptor, lba: nat): seq<PortWrite> {
    if CheckLbaCorrected(d, lba) == InRange then TaskFile(master, lba, ReadSectors) else []
  }

  /** The port writes of a sector write. */
  function WriteWrites(master: bool, d: DiskDescriptor, lba: nat, buffer: Sector, resp: TransferResponse): seq<PortWrite> {
    if CheckLbaCorrected(d, lba) == InRange then TaskFile(master, lba, WriteSectors) + WriteTail(buffer, resp) else []
  }

  // ---------------------------------------------------------------- the partition table

  /** The `i`-th 16-byte chunk of `mbr[446..510]`. */
  function Entry(mbr: Sector, i: nat): (e: seq<Byte>)
    requires i < 4
    ensures |e| == ENTRY_SIZE
  {
    mbr[TABLE + ENTRY_SIZE * i .. TABLE + ENTRY_SIZE * i + ENTRY_SIZE]
  }

  /** `filter_map(PartitionDescriptor::from_bytes)` over entries `i..4`, in order. */
  function Accepted(mbr: Sector, fromBytes: seq<Byte> -> Option<PartitionDescriptor>, i: nat): (ds: seq<PartitionDescriptor>)
    requires i <= 4
    ensures |ds| <= 4 - i
    decreases 4 - i
  {
    if i == 4 then []
    else (match fromBytes(Entry(mbr, i)) case Some(d) => [d] case None => []) + Accepted(mbr, fromBytes, i + 1)
  }

  /** A descriptor is in the table exactly when `from_bytes` produces it from one of the entries `i..4`. */
  lemma {:induction false} AcceptedMembers(mbr: Sector, fromBytes: seq<Byte> -> Option<PartitionDescriptor>, i: nat, d: PartitionDescriptor)
    requires i <= 4
    ensures d in Accepted(mbr, fromBytes, i) <==> exists k :: i <= k < 4 && fromBytes(Entry(mbr, k)) == Some(d)
    decreases 4 - i
  {
    if i < 4 {
      AcceptedMembers(mbr, fromBytes, i + 1, d);
    }
  }

  /** Four descriptors come out exactly when all four entries are accepted. */
  lemma {:induction false} AcceptedFull(mbr: Sector, fromBytes: seq<Byte> -> Option<PartitionDescriptor>, i: nat)
    requires i <= 4
    ensures |Accepted(mbr, fromBytes, i)| == 4 - i <==> forall k :: i <= k < 4 ==> fromBytes(Entry(mbr, k)).Some?
    decreases 4 - i
  {
    if i < 4 {
      AcceptedFull(mbr, fromBytes, i + 1);
    }
  }

  /** `get_partitions`: the descriptors of the accepted entries of sector 0, or the read error. */
  function GetPartitions(mbr: Result<Sector, BlockDeviceError>, fromBytes: seq<Byte> -> Option<PartitionDescriptor>)
    : (r: Result<seq<PartitionDescriptor>, BlockDeviceError>)
    ensures r.Err? <==> mbr.Err?
    ensures r.Err? ==> r.error == mbr.error
    ensures r.Ok? ==> |r.value| <= 4
    ensures r.Ok? ==> (|r.value| == 4 <==> forall k :: 0 <= k < 4 ==> fromBytes(Entry(mbr.value, k)).Some?)
  {
    match mbr
    case Err(e) => Err(e)
    case Ok(s) =>
      AcceptedFull(s, fromBytes, 0);
      Ok(Accepted(s, fromBytes, 0))
  }

  /** `has_bootloader`: the boot signature `55 AA` closes sector 0. */
  function HasBootloader(mbr: Result<Sector, BlockDeviceError>): (r: Result<bool, BlockDeviceError>)
    ensures r.Err? <==> mbr.Err?
    ensures r.Err? ==> r.error == mbr.error
    ensures r.Ok? ==> (r.value <==> mbr.value[510..] == [0x55, 0xAA])
  {
    match mbr
    case Err(e) => Err(e)
    case Ok(s) => Ok(s[510] == 0x55 && s[511] == 0xAA)
  }

  /** The largest `start_lba + sectors` of the descriptors, 0 for none. */
  function MaxEnd(ds: seq<PartitionDescriptor>): (m: nat)
    ensures forall d :: d in ds ==> d.startLba + d.sectors <= m
    ensures ds == [] ==> m == 0
    ensures ds != [] ==> exists d :: d in ds && m == d.startLba + d.sectors
  {
    if ds == [] then 0
    else
      var rest := MaxEnd(ds[1..]);
      assert forall d :: d in ds ==> d == ds[0] || d in ds[1..];
      if ds[0].startLba + ds[0].sectors >= rest then ds[0].startLba + ds[0].sectors else rest
  }

  /** The first sector of a new partition: one past the largest end, truncated to `u32`. */
  function NewStart(ds: seq<PartitionDescriptor>): nat {
    (MaxEnd(ds) + 1) % TWO_32
  }

  /** `u32::to_le_bytes`. */
  function LittleEndian32(v: nat): (b: seq<Byte>)
    ensures |b| == 4
  {
    [v % 256, (v / 0x100) % 256, (v / 0x1_0000) % 256, (v / 0x100_0000) % 256]
  }

  /** `u32::from_le_bytes`. */
  function FromLittleEndian32(b: seq<Byte>): nat
    requires |b| == 4
  {
    b[0] as int + (b[1] as int) * 0x100 + (b[2] as int) * 0x1_0000 + (b[3] as int) * 0x100_0000
  }

  /** The four bytes are the `u32` written in them. */
  lemma LittleEndianRoundTrip(v: nat)
    requires v < TWO_32
    ensures FromLittleEndian32(LittleEndian32(v)) == v
  {
    ModOfDivide(v, 0x100, 256);
    ModOfDivide(v, 0x1_0000, 256);
    ModOfDivide(v, 0x100_0000, 256);
    assert v % TWO_32 == v;
  }

  /** The entry `create_partition` builds: status 0, CHS fields `FF`, the type, then the start and the length in little-endian. */
  function NewEntry(partitionType: Byte, start: nat, sectors: nat): (e: seq<Byte>)
    ensures |e| == ENTRY_SIZE
  {
    [0x00, 0xFF, 0xFF, 0xFF, partitionType, 0xFF, 0xFF, 0xFF] + LittleEndian32(start) + LittleEndian32(sectors)
  }

  /** A new entry carries its type at byte 4, its start at bytes 8..12 and its length at bytes 12..16. */
  lemma NewEntryFields(partitionType: Byte, start: nat, sectors: nat)
    requires start < TWO_32 && sectors < TWO_32
    ensures var e := NewEntry(partitionType, start, sectors);
      && e[0] == 0 && e[4] == partitionType
      && FromLittleEndian32(e[8..12]) == start && FromLittleEndian32(e[12..16]) == sectors
  {
    var e := NewEntry(partitionType, start, sectors);
    assert e[8..12] == LittleEndian32(start);
    assert e[12..16] == LittleEndian32(sectors);
    LittleEndianRoundTrip(start);
    LittleEndianRoundTrip(sectors);
  }

  /** The first entry `from_bytes` rejects; one exists when fewer than four are accepted. */
  function FirstFree(mbr: Sector, fromBytes: seq<Byte> -> Option<PartitionDescriptor>): (i: nat)
    requires |Accepted(mbr, fromBytes, 0)| < 4
    ensures i < 4 && fromBytes(Entry(mbr, i)).None?
    ensures forall k :: 0 <= k < i ==> fromBytes(Entry(mbr, k)).Some?
  {
    AcceptedFull(mbr, fromBytes, 0);
    if fromBytes(Entry(mbr, 0)).None? then 0
    else if fromBytes(Entry(mbr, 1)).None? then 1
    else if fromBytes(Entry(mbr, 2)).None? then 2
    else 3
  }

  /** The MBR with entry `i` replaced. */
  function WithEntry(mbr: Sector, i: nat, e: seq<Byte>): (r: Sector)
    requires i < 4 && |e| == ENTRY_SIZE
  {
    mbr[..TABLE + ENTRY_SIZE * i] + e + mbr[TABLE + ENTRY_SIZE * i + ENTRY_SIZE..]
  }

  /** Replacing an entry changes its 16 bytes and nothing else: the other entries and the boot signature stay. */
  lemma WithEntryBytes(mbr: Sector, i: nat, e: seq<Byte>)
    requires i < 4 && |e| == ENTRY_SIZE
    ensures Entry(WithEntry(mbr, i, e), i) == e
    ensures forall k :: 0 <= k < 4 && k != i ==> Entry(WithEntry(mbr, i, e), k) == Entry(mbr, k)
    ensures forall j :: 0 <= j < 512 && !(TABLE + ENTRY_SIZE * i <= j < TABLE + ENTRY_SIZE * i + ENTRY_SIZE) ==>
      WithEntry(mbr, i, e)[j] == mbr[j]
  {
    var r := WithEntry(mbr, i, e);
    var o := TABLE + ENTRY_SIZE * i;
    assert forall j :: 0 <= j < 512 && !(o <= j < o + ENTRY_SIZE) ==> r[j] == mbr[j];
    forall k | 0 <= k < 4 && k != i
      ensures Entry(r, k) == Entry(mbr, k)
    {
      var p := TABLE + ENTRY_SIZE * k;
      assert p + ENTRY_SIZE <= o || o + ENTRY_SIZE <= p;
      assert forall j :: 0 <= j < ENTRY_SIZE ==> Entry(r, k)[j] == r[p + j] == mbr[p + j] == Entry(mbr, k)[j];
    }
  }

  /** The sector 0 that `create_partition` writes. */
  function NewMbr(mbr: Sector, sectors: nat, partitionType: Byte, fromBytes: seq<Byte> -> Option<PartitionDescriptor>): Sector
    requires |Accepted(mbr, fromBytes, 0)| < 4
  {
    WithEntry(mbr, FirstFree(mbr, fromBytes), NewEntry(partitionType, NewStart(Accepted(mbr, fromBytes, 0)), sectors))
  }

  /**
   * When `from_bytes` accepts the new entry, the table of the written MBR
   * holds the old partitions and the new one, and nothing else; the boot
   * signature is kept.
   */
  lemma NewMbrTable(mbr: Sector, sectors: nat, partitionType: Byte, fromBytes: seq<Byte> -> Option<PartitionDescriptor>, d: PartitionDescriptor)
    requires |Accepted(mbr, fromBytes, 0)| < 4
    requires fromBytes(NewEntry(partitionType, NewStart(Accepted(mbr, fromBytes, 0)), sectors)).Some?
    ensures var added := fromBytes(NewEntry(partitionType, NewStart(Accepted(mbr, fromBytes, 0)), sectors)).value;
      d in Accepted(NewMbr(mbr, sectors, partitionType, fromBytes), fromBytes, 0) <==> d in Accepted(mbr, fromBytes, 0) || d == added
    ensures HasBootloader(Ok(NewMbr(mbr, sectors, partitionType, fromBytes))) == HasBootloader(Ok(mbr))
  {
    var i := FirstFree(mbr, fromBytes);
    var e := NewEntry(partitionType, NewStart(Accepted(mbr, fromBytes, 0)), sectors);
    var r := NewMbr(mbr, sectors, partitionType, fromBytes);
    WithEntryBytes(mbr, i, e);
    AcceptedMembers(mbr, fromBytes, 0, d);
    AcceptedMembers(r, fromBytes, 0, d);
    if d in Accepted(mbr, fromBytes, 0) {
      var k :| 0 <= k < 4 && fromBytes(Entry(mbr, k)) == Some(d);
      assert k != i;
      assert fromBytes(Entry(r, k)) == Some(d);
    }
    if d in Accepted(r, fromBytes, 0) {
      var k :| 0 <= k < 4 && fromBytes(Entry(r, k)) == Some(d);
      if k != i {
        assert fromBytes(Entry(mbr, k)) == Some(d);
      }
    }
  }

  /** Unless the truncation to `u32` wraps, the new partition starts after the last sector of every existing one. */
  lemma NewStartAfterAll(ds: seq<PartitionDescriptor>, d: PartitionDescriptor)
    requires MaxEnd(ds) + 1 < TWO_32 && d in ds
    ensures NewStart(ds) > d.startLba + d.sectors
  {
  }

  /** With a partition ending at `u32::MAX`, the truncated start wraps to sector 0, inside the MBR's own track. */
  lemma NewStartWraps()
    ensures NewStart([PartitionDescriptor(1, TWO_32 - 2)]) == 0
  {
  }

  /** `create_partition`'s result, given sector 0 as read and the outcome of writing it back. */
  function CreateOutcome(mbr: Result<Sector, BlockDeviceError>, sectors: nat, partitionType: Byte,
                         fromBytes: seq<Byte> -> Option<PartitionDescriptor>, written: Result<(), BlockDeviceError>)
    : (r: Result<PartitionDescriptor, BlockDeviceError>)
    ensures mbr.Err? ==> r == Err(mbr.error)
    ensures r.Ok? <==> WritesBack(mbr, sectors, partitionType, fromBytes) && written.Ok?
    ensures r.Ok? ==> Some(r.value) == fromBytes(NewEntry(partitionType, NewStart(Accepted(mbr.value, fromBytes, 0)), sectors))
    ensures mbr.Ok? && !WritesBack(mbr, sectors, partitionType, fromBytes) ==> r.Err? && r.error in {TooManyPartitions, Unknown(0)}
    ensures WritesBack(mbr, sectors, partitionType, fromBytes) && written.Err? ==> r == Err(written.error)
  {
    if mbr.Err? then Err(mbr.error)
    else if |Accepted(mbr.value, fromBytes, 0)| >= 4 then Err(TooManyPartitions)
    else
      var entry := NewEntry(partitionType, NewStart(Accepted(mbr.value, fromBytes, 0)), sectors);
      if fromBytes(entry).None? then Err(Unknown(0))
      else if written.Err? then Err(written.error)
      else Ok(fromBytes(entry).value)
  }

  /** `create_partition` writes nothing unless it can place an entry `from_bytes` accepts. */
  predicate WritesBack(mbr: Result<Sector, BlockDeviceError>, sectors: nat, partitionType: Byte,
                       fromBytes: seq<Byte> -> Option<PartitionDescriptor>)
  {
    && mbr.Ok? && |Accepted(mbr.value, fromBytes, 0)| < 4
    && fromBytes(NewEntry(partitionType, NewStart(Accepted(mbr.value, fromBytes, 0)), sectors)).Some?
  }

  /** The port writes of `create_partition` after reading sector 0: those of writing the new MBR back, if it gets that far. */
  function CreateWrites(master: bool, d: DiskDescriptor, mbr: Result<Sector, BlockDeviceError>, sectors: nat,
                        partitionType: Byte, fromBytes: seq<Byte> -> Option<PartitionDescriptor>, resp: TransferResponse)
    : seq<PortWrite>
  {
    if WritesBack(mbr, sectors, partitionType, fromBytes)
    then WriteWrites(master, d, 0, NewMbr(mbr.value, sectors, partitionType, fromBytes), resp)
    else []
  }

  /** A full table is refused with `TooManyPartitions` before anything is written. */
  lemma FullTableRefused(mbr: Sector, sectors: nat, partitionType: Byte,
                         fromBytes: seq<Byte> -> Option<PartitionDescriptor>, written: Result<(), BlockDeviceError>)
    requires forall k :: 0 <= k < 4 ==> fromBytes(Entry(mbr, k)).Some?
    ensures CreateOutcome(Ok(mbr), sectors, partitionType, fromBytes, written) == Err(TooManyPartitions)
    ensures !WritesBack(Ok(mbr), sectors, partitionType, fromBytes)
  {
    AcceptedFull(mbr, fromBytes, 0);
  }

  /** `mbr[446 + i * 16..446 + i * 16 + 16].copy_from_slice(entry)`, on the MBR buffer in place. */
  method CopyEntry(mbr: array<Byte>, i: nat, entry: seq<Byte>)
    requires mbr.Length == 512 && i < 4 && |entry| == ENTRY_SIZE
    modifies mbr
    ensures mbr[..] == WithEntry(old(mbr[..]), i, entry)
  {
    var o := TABLE + ENTRY_SIZE * i;
    var k := 0;
    while k < ENTRY_SIZE
      invariant 0 <= k <= ENTRY_SIZE
      invariant mbr[..] == old(mbr[..])[..o] + entry[..k] + old(mbr[..])[o + k..]
    {
      mbr[o + k] := entry[k];
      k := k + 1;
    }
  }

  class Disk {
    /** The bus the disk sits on. */
    const bus: Bus
    /** The disk's identify descriptor. */
    const descriptor: DiskDescriptor
    /** The master or the slave drive of the bus. */
    const master: bool
    /** `PartitionDescriptor::from_bytes`, defined outside this model. */
    const fromBytes: seq<Byte> -> Option<PartitionDescriptor>

    constructor (bus: Bus, descriptor: DiskDescriptor, master: bool, fromBytes: seq<Byte> -> Option<PartitionDescriptor>)
      ensures this.bus == bus && this.descriptor == descriptor && this.master == master && this.fromBytes == fromBytes
    {
      this.bus := bus;
      this.descriptor := descriptor;
      this.master := master;
      this.fromBytes := fromBytes;
    }

    /** `name`. */
    function Name(): string
      reads this, bus
    {
      DiskName(bus.primary, master)
    }

    method ReadSector(lba: nat, resp: TransferResponse) returns (r: Result<Sector, BlockDeviceError>)
      requires CheckLbaCorrected(descriptor, lba) != Lba48Only
      modifies bus`writes
      ensures r == DiskReadOutcome(descriptor, lba, resp)
      ensures bus.writes == old(bus.writes) + ReadWrites(master, descriptor, lba)
    {
      var b := bus.ReadSector(master, descriptor, lba, resp);
      r := match b case Ok(s) => Ok(s) case Err(e) => Err(BusToDeviceError(e));
    }

    method WriteSector(lba: nat, buffer: Sector, resp: TransferResponse) returns (r: Result<(), BlockDeviceError>)
      requires CheckLbaCorrected(descriptor, lba) != Lba48Only
      modifies bus`writes
      ensures r == DiskWriteOutcome(descriptor, lba, resp)
      ensures bus.writes == old(bus.writes) + WriteWrites(master, descriptor, lba, buffer, resp)
    {
      var b := bus.WriteSector(master, descriptor, lba, buffer, resp);
      r := match b case Ok(_) => Ok(()) case Err(e) => Err(BusToDeviceError(e));
    }

    /** `get_partitions`. */
    method GetPartitionList(resp: TransferResponse) returns (r: Result<seq<PartitionDescriptor>, BlockDeviceError>)
      requires CheckLbaCorrected(descriptor, 0) != Lba48Only
      modifies bus`writes
      ensures r == GetPartitions(DiskReadOutcome(descriptor, 0, resp), fromBytes)
      ensures bus.writes == old(bus.writes) + ReadWrites(master, descriptor, 0)
    {
      var mbr := ReadSector(0, resp);
      r := GetPartitions(mbr, fromBytes);
    }

    /** `has_bootloader`. */
    method ReadBootSignature(resp: TransferResponse) returns (r: Result<bool, BlockDeviceError>)
      requires CheckLbaCorrected(descriptor, 0) != Lba48Only
      modifies bus`writes
      ensures r == HasBootloader(DiskReadOutcome(descriptor, 0, resp))
      ensures bus.writes == old(bus.writes) + ReadWrites(master, descriptor, 0)
    {
      var mbr := ReadSector(0, resp);
      r := HasBootloader(mbr);
    }

    /**
     * `create_partition`: reads sector 0, refuses a full table, builds the
     * new entry after the last partition, copies it into the first free
     * slot of the MBR and writes sector 0 back, once.
     */
    method CreatePartition(sectors: nat, partitionType: Byte, readResp: TransferResponse, writeResp: TransferResponse)
      returns (r: Result<PartitionDescriptor, BlockDeviceError>)
      requires sectors < TWO_32 && CheckLbaCorrected(descriptor, 0) != Lba48Only
      modifies bus`writes
      ensures r == CreateOutcome(DiskReadOutcome(descriptor, 0, readResp), sectors, partitionType, fromBytes,
                                 DiskWriteOutcome(descriptor, 0, writeResp))
      ensures bus.writes == old(bus.writes) + ReadWrites(master, descriptor, 0)
        + CreateWrites(master, descriptor, DiskReadOutcome(descriptor, 0, readResp), sectors, partitionType, fromBytes, writeResp)
    {
      var read := ReadSector(0, readResp);
      if read.Err? {
        return Err(read.error);
      }
      var descriptors := Accepted(read.value, fromBytes, 0);
      if |descriptors| >= 4 {
        return Err(TooManyPartitions);
      }
      var entry := NewEntry(partitionType, NewStart(descriptors), sectors);
      var added := fromBytes(entry);
      if added.None? {
        return Err(Unknown(0));
      }
      var free := FirstFree(read.value, fromBytes);
      var mbr := new Byte[512](j requires 0 <= j < 512 => read.value[j]);
      assert mbr[..] == read.value;
      CopyEntry(mbr, free, entry);
      assert mbr[..] == NewMbr(read.value, sectors, partitionType, fromBytes);
      var written := WriteSector(0, mbr[..], writeResp);
      if written.Err? {
        return Err(written.error);
      }
      r := Ok(added.value);
    }
  }
}
