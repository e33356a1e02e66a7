/**
 * `ATABus` of drivers/ata/src/bus.rs: the identify protocol with its
 * per-drive descriptor cache, and single-sector LBA28 reads and writes.
 *
 * Port I/O is modelled by the sequence of values the driver writes to the
 * bus's registers; what the hardware answers (the status polls of
 * `wait_for`/`wait_400ns`, the signature registers, the data) is passed in.
 */
module AtaBus {
  import opened Wrappers
  import opened BlockDevice
  import opened AtaConstants
  import opened Digits

  /** The ports of a bus that the driver writes. */
  datatype Register = Features | SectorCount | LbaLow | LbaMid | LbaHigh | DriveHead | CommandPort | DeviceControl

  /** One output of the driver: a byte to a register, or a sector through the data port. */
  datatype PortWrite = Out(register: Register, value: Byte) | DataOut(sector: Sector)

  /** `DiskDescriptor` (parsed from the identify data outside this model): the two capacities the driver reads. */
  datatype DiskDescriptor = DiskDescriptor(lba28Sectors: nat, lba48Sectors: Option<nat>)

  // ---------------------------------------------------------------- names

  /** `get_disk_name`: the name says which bus and which drive. */
  function DiskName(primaryBus: bool, masterDisk: bool): (name: string)
    ensures |name| > 11 && name[..4] == "ATA "
    ensures name[4..11] == "Primary" <==> primaryBus
    ensures name[|name| - 6..] == "Master" <==> masterDisk
  {
    var name := match (primaryBus, masterDisk)
      case (false, false) => "ATA Secondary Slave"
      case (false, true) => "ATA Secondary Master"
      case (true, false) => "ATA Primary Slave"
      case (true, true) => "ATA Primary Master";
    assert name[4..11][0] == name[4] == if primaryBus then 'P' else 'S';
    name
  }

  // ---------------------------------------------------------------- range check

  /** What the range check of `read_sector`/`write_sector` decides. */
  datatype LbaCheck = InRange | LbaOutOfRange | Lba48Only

  /**
   * The range check as written: `lba > lba_28_addressable_sectors` is out of
   * range unless an LBA48 capacity exceeds it, in which case the driver
   * reaches `todo!()`.
   */
  function CheckLba(d: DiskDescriptor, lba: nat): (c: LbaCheck)
    ensures c == InRange <==> lba <= d.lba28Sectors
    ensures c == LbaOutOfRange <==> lba > d.lba28Sectors && (d.lba48Sectors.None? || lba >= d.lba48Sectors.value)
  {
    if lba > d.lba28Sectors then
      if d.lba48Sectors.None? || lba >= d.lba48Sectors.value then LbaOutOfRange else Lba48Only
    else InRange
  }

  /** The check lets through the sector just past the LBA28 capacity. */
  lemma CheckLbaAcceptsCapacity(d: DiskDescriptor)
    ensures CheckLba(d, d.lba28Sectors) == InRange
  {
  }

  /** The range check with `>=`, as the LBA48 bound is written: exactly the sectors below the capacity pass. */
  function CheckLbaCorrected(d: DiskDescriptor, lba: nat): (c: LbaCheck)
    ensures c == InRange <==> lba < d.lba28Sectors
    ensures c == LbaOutOfRange <==> lba >= d.lba28Sectors && (d.lba48Sectors.None? || lba >= d.lba48Sectors.value)
  {
    if lba >= d.lba28Sectors then
      if d.lba48Sectors.None? || lba >= d.lba48Sectors.value then LbaOutOfRange else Lba48Only
    else InRange
  }

  /** The two checks differ only at the capacity itself, where the corrected one refuses. */
  lemma CheckLbaDifference(d: DiskDescriptor, lba: nat)
    ensures lba != d.lba28Sectors ==> CheckLba(d, lba) == CheckLbaCorrected(d, lba)
    ensures lba == d.lba28Sectors ==> CheckLba(d, lba) == InRange && CheckLbaCorrected(d, lba) != InRange
  {
  }

  // ---------------------------------------------------------------- LBA28 task file

  const TWO_24: nat := 0x100_0000
  const TWO_28: nat := 0x1000_0000

  /** The drive/head byte: `0xE0` for the master, `0xF0` for the slave, OR'd with `(lba >> 24) & 0x0F`. */
  function DriveHeadByte(master: bool, lba: nat): Byte {
    var select: bv8 := if master then 0xE0 else 0xF0;
    var head := (lba / TWO_24) % 16;
    (select | head as bv8) as int
  }

  /**
   * The register writes that start a one-sector LBA28 command: drive/head,
   * features, sector count 1, the three low bytes of the address, then the
   * command.
   */
  function TaskFile(master: bool, lba: nat, command: Command): (w: seq<PortWrite>)
    ensures |w| == 7 && w[6] == Out(CommandPort, CommandCode(command))
  {
    [Out(DriveHead, DriveHeadByte(master, lba)), Out(Features, 0x00), Out(SectorCount, 0x01),
     Out(LbaLow, lba % 256), Out(LbaMid, (lba / 0x100) % 256), Out(LbaHigh, (lba / 0x1_0000) % 256),
     Out(CommandPort, CommandCode(command))]
  }

  /** Reading a task file back as the drive does: the drive from bit 4 of drive/head, the address from its low nibble and the three LBA registers. */
  function ReadTaskFile(w: seq<PortWrite>): Option<(bool, nat, Byte)> {
    if |w| != 7 || !w[0].Out? || !w[3].Out? || !w[4].Out? || !w[5].Out? || !w[6].Out? then None
    else
      var dh := w[0].value as bv8;
      Some(((dh & 0x10) == 0,
            ((dh & 0x0F) as int) * TWO_24 + w[5].value * 0x1_0000 + w[4].value * 0x100 + w[3].value,
            w[6].value))
  }

  /** The three low bytes and the head nibble carry the low 28 bits of the address. */
  lemma Lba28Digits(lba: nat)
    ensures ((lba / TWO_24) % 16) * TWO_24 + ((lba / 0x1_0000) % 256) * 0x1_0000
      + ((lba / 0x100) % 256) * 0x100 + lba % 256 == lba % TWO_28
  {
    ModOfDivide(lba, 0x100, 256);
    ModOfDivide(lba, 0x1_0000, 256);
    ModOfDivide(lba, TWO_24, 16);
  }

  /** The select bits and the head nibble do not overlap. */
  lemma DriveHeadFields(master: bool, head: nat)
    requires head < 16
    ensures var dh := (if master then 0xE0 else 0xF0) as bv8 | head as bv8;
      && (dh & 0x0F) as int == head && ((dh & 0x10) == 0 <==> master) && dh & 0xE0 == 0xE0
  {
  }

  /** The drive reads back the drive, the address modulo 2^28 and the command the driver wrote. */
  lemma TaskFileRoundTrip(master: bool, lba: nat, command: Command)
    ensures ReadTaskFile(TaskFile(master, lba, command)) == Some((master, lba % TWO_28, CommandCode(command)))
  {
    DriveHeadRead(master, lba);
    Lba28Digits(lba);
  }

  /** The drive reads the drive bit and the head nibble back from the drive/head byte. */
  lemma DriveHeadRead(master: bool, lba: nat)
    ensures var dh := DriveHeadByte(master, lba) as bv8;
      (dh & 0x0F) as int == (lba / TWO_24) % 16 && ((dh & 0x10) == 0 <==> master)
  {
    var head := (lba / TWO_24) % 16;
    var select: bv8 := if master then 0xE0 else 0xF0;
    var dh := select | head as bv8;
    assert DriveHeadByte(master, lba) == dh as int;
    ByteBits(dh);
    DriveHeadFields(master, head);
  }

  lemma ByteBits(b: bv8)
    ensures (b as int) as bv8 == b
  {
  }

  /** Below the LBA28 limit the round trip is exact. */
  lemma TaskFileExact(master: bool, lba: nat, command: Command)
    requires lba < TWO_28
    ensures ReadTaskFile(TaskFile(master, lba, command)) == Some((master, lba, CommandCode(command)))
  {
    TaskFileRoundTrip(master, lba, command);
    ModBelow(lba, TWO_28);
  }

  lemma ModBelow(x: nat, m: nat)
    requires x < m
    ensures x % m == x
  {
  }

  // ---------------------------------------------------------------- identify

  /** `handle_identify_error`: how a failed identify is classified from the error register and the signature in LBA mid/high. */
  function ClassifyIdentifyError(error: Byte, mid: Byte, high: Byte): IdentifyError {
    if error != ABRT then DeviceIsATAPI
    else match (mid, high)
      case (0x14, 0xEB) => DeviceIsATAPI
      case (0x3C, 0xC3) => DeviceIsSATA
      case (0, 0) => UnknownDevice
      case _ => DeviceIsNotATA
  }

  /** Only an aborted identify is told apart by its signature; a failed identify is never reported as a missing bus or device. */
  lemma ClassifyIdentifyErrorCases(error: Byte, mid: Byte, high: Byte)
    ensures var e := ClassifyIdentifyError(error, mid, high);
      && (e == DeviceIsSATA <==> error == ABRT && mid == 0x3C && high == 0xC3)
      && (e == UnknownDevice <==> error == ABRT && mid == 0 && high == 0)
      && (e == DeviceIsATAPI <==> error != ABRT || (mid == 0x14 && high == 0xEB))
      && e != BusNotConnected && e != NoDevice
  {
  }

  /** What the hardware answers during one identify. */
  datatype IdentifyResponse = IdentifyResponse(
    /** The status register does not float at `0xFF`. */
    connected: bool,
    /** The error register if the wait for a clear BSY before selecting fails. */
    idle: Option<Byte>,
    /** The error register if `wait_400ns` after selecting fails. */
    select: Option<Byte>,
    /** The status register right after the command. */
    status: Byte,
    /** The error register if the wait for a clear BSY after the command fails. */
    busy: Option<Byte>,
    /** The error register if the wait for DRQ fails. */
    drq: Option<Byte>,
    /** LBA mid and high, read when classifying a failure. */
    mid: Byte, high: Byte,
    /** The descriptor parsed from the 256 identify words. */
    descriptor: DiskDescriptor)

  /**
   * The result of an identify that is not served from the cache: a floating
   * bus and a zero status are told apart, a failed wait before the command is
   * `Unknown`, and only a failed wait after it is classified by signature.
   */
  function IdentifyOutcome(resp: IdentifyResponse): (r: Result<DiskDescriptor, IdentifyError>)
    ensures r == Err(BusNotConnected) <==> !resp.connected
    ensures r == Err(NoDevice) <==> resp.connected && resp.idle.None? && resp.select.None? && resp.status == 0
    ensures resp.connected && (resp.idle.Some? || resp.select.Some?) ==> r == Err(UnknownDevice)
    ensures r.Err? && r.error in {DeviceIsNotATA, DeviceIsATAPI, DeviceIsSATA} ==> resp.busy.Some? || resp.drq.Some?
    ensures r.Ok? <==> resp.connected && resp.idle.None? && resp.select.None? && resp.status != 0 && resp.busy.None? && resp.drq.None?
    ensures r.Ok? ==> r.value == resp.descriptor
  {
    if !resp.connected then Err(BusNotConnected)
    else if resp.idle.Some? || resp.select.Some? then Err(UnknownDevice)
    else if resp.status == 0 then Err(NoDevice)
    else if resp.busy.Some? then Err(ClassifyIdentifyError(resp.busy.value, resp.mid, resp.high))
    else if resp.drq.Some? then Err(ClassifyIdentifyError(resp.drq.value, resp.mid, resp.high))
    else Ok(resp.descriptor)
  }

  /** The drive selection writes of an identify: `0xA0` (master) or `0xB0` (slave), then a cleared device control. */
  function SelectWrites(master: bool): seq<PortWrite> {
    [Out(DriveHead, if master then 0xA0 else 0xB0), Out(DeviceControl, 0x00)]
  }

  /** The writes that issue IDENTIFY: zero count and address, then the command. */
  function IdentifyCommandWrites(): seq<PortWrite> {
    [Out(SectorCount, 0), Out(LbaLow, 0), Out(LbaMid, 0), Out(LbaHigh, 0), Out(CommandPort, CommandCode(Identify))]
  }

  /** The register writes of an identify that is not served from the cache. */
  function IdentifyWrites(master: bool, resp: IdentifyResponse): seq<PortWrite> {
    if !resp.connected || resp.idle.Some? then []
    else if resp.select.Some? then SelectWrites(master)
    else SelectWrites(master) + IdentifyCommandWrites()
  }

  /** A successful identify wrote the drive selection and the IDENTIFY command, and nothing else. */
  lemma IdentifySuccessWrites(master: bool, resp: IdentifyResponse)
    requires IdentifyOutcome(resp).Ok?
    ensures IdentifyWrites(master, resp) ==
      [Out(DriveHead, if master then 0xA0 else 0xB0), Out(DeviceControl, 0x00),
       Out(SectorCount, 0), Out(LbaLow, 0), Out(LbaMid, 0), Out(LbaHigh, 0), Out(CommandPort, 0xEC)]
  {
  }

  // ---------------------------------------------------------------- sector transfers

  /** What the hardware answers to the status polls of one transfer, each the error register if that wait fails. */
  datatype TransferResponse = TransferResponse(
    busy: Option<Byte>, drq: Option<Byte>, settle: Option<Byte>,
    drained: Option<Byte>, idle: Option<Byte>, flushed: Option<Byte>,
    /** The sector the data port delivers on a read. */
    data: Sector)

  /** The result of `read_sector` once the range check has passed. */
  function ReadOutcome(resp: TransferResponse): Result<Sector, BusError> {
    if resp.busy.Some? then Err(AtaError(resp.busy.value))
    else if resp.drq.Some? then Err(AtaError(resp.drq.value))
    else if resp.settle.Some? then Err(AtaError(resp.settle.value))
    else Ok(resp.data)
  }

  /** The result of `write_sector` once the range check has passed. */
  function WriteOutcome(resp: TransferResponse): Result<(), BusError> {
    if resp.busy.Some? then Err(AtaError(resp.busy.value))
    else if resp.drq.Some? then Err(AtaError(resp.drq.value))
    else if resp.settle.Some? then Err(AtaError(resp.settle.value))
    else if resp.drained.Some? then Err(AtaError(resp.drained.value))
    else if resp.idle.Some? then Err(AtaError(resp.idle.value))
    else if resp.flushed.Some? then Err(AtaError(resp.flushed.value))
    else Ok(())
  }

  /** The writes of `write_sector` after the task file: the data once the drive asks for it, then CACHE FLUSH once it is idle again. */
  function WriteTail(buffer: Sector, resp: TransferResponse): seq<PortWrite> {
    if resp.busy.Some? || resp.drq.Some? then []
    else if resp.settle.Some? || resp.drained.Some? || resp.idle.Some? then [DataOut(buffer)]
    else [DataOut(buffer), Out(CommandPort, CommandCode(CacheFlush))]
  }

  /** A write that succeeds has sent the task file, the data and a cache flush, in that order. */
  lemma WriteSuccessWrites(master: bool, lba: nat, buffer: Sector, resp: TransferResponse)
    requires WriteOutcome(resp).Ok?
    ensures var w := TaskFile(master, lba, WriteSectors) + WriteTail(buffer, resp);
      && |w| == 9 && w[6] == Out(CommandPort, 0x30) && w[7] == DataOut(buffer) && w[8] == Out(CommandPort, 0xE7)
  {
  }

  class Bus {
    /** `primary`: the bus at ports `0x1F0` rather than `0x170`. */
    const primary: bool
    /** `disk_1_descriptor`: the master's cached identify result. */
    var masterDescriptor: Option<DiskDescriptor>
    /** `disk_2_descriptor`: the slave's cached identify result. */
    var slaveDescriptor: Option<DiskDescriptor>
    /** Every value written to the bus's ports so far, oldest first. */
    var writes: seq<PortWrite>

    /** `ATABus::new`: nothing cached and nothing written. */
    constructor (primary: bool)
      ensures this.primary == primary && masterDescriptor == None && slaveDescriptor == None && writes == []
    {
      this.primary := primary;
      masterDescriptor := None;
      slaveDescriptor := None;
      writes := [];
    }

    /** The cache entry of a drive. */
    function Cached(master: bool): Option<DiskDescriptor>
      reads this
    {
      if master then masterDescriptor else slaveDescriptor
    }

    /**
     * `identify`: a cached descriptor is returned without touching a port;
     * otherwise the IDENTIFY protocol runs and a descriptor it reads is
     * cached for that drive.
     */
    method Identify(master: bool, resp: IdentifyResponse) returns (r: Result<DiskDescriptor, IdentifyError>)
      modifies this`masterDescriptor, this`slaveDescriptor, this`writes
      ensures old(Cached(master)).Some? ==>
        r == Ok(old(Cached(master)).value) && writes == old(writes)
        && masterDescriptor == old(masterDescriptor) && slaveDescriptor == old(slaveDescriptor)
      ensures old(Cached(master)).None? ==>
        r == IdentifyOutcome(resp) && writes == old(writes) + IdentifyWrites(master, resp)
        && Cached(master) == (if r.Ok? then Some(r.value) else None)
        && Cached(!master) == old(Cached(!master))
    {
      if master && masterDescriptor.Some? {
        return Ok(masterDescriptor.value);
      }
      if !master && slaveDescriptor.Some? {
        return Ok(slaveDescriptor.value);
      }
      if !resp.connected {
        return Err(BusNotConnected);
      }
      if resp.idle.Some? {
        return Err(UnknownDevice);
      }
      writes := writes + [Out(DriveHead, if master then 0xA0 else 0xB0)];
      writes := writes + [Out(DeviceControl, 0x00)];
      if resp.select.Some? {
        return Err(UnknownDevice);
      }
      writes := writes + [Out(SectorCount, 0x00)];
      writes := writes + [Out(LbaLow, 0x00)];
      writes := writes + [Out(LbaMid, 0x00)];
      writes := writes + [Out(LbaHigh, 0x00)];
      writes := writes + [Out(CommandPort, CommandCode(Command.Identify))];
      if resp.status == 0 {
        return Err(NoDevice);
      }
      if resp.busy.Some? {
        return Err(ClassifyIdentifyError(resp.busy.value, resp.mid, resp.high));
      }
      if resp.drq.Some? {
        return Err(ClassifyIdentifyError(resp.drq.value, resp.mid, resp.high));
      }
      if master {
        masterDescriptor := Some(resp.descriptor);
        r := Ok(masterDescriptor.value);
      } else {
        slaveDescriptor := Some(resp.descriptor);
        r := Ok(slaveDescriptor.value);
      }
    }

    /** Writes the task file of a one-sector command, register by register. */
    method SendTaskFile(master: bool, lba: nat, command: Command)
      modifies this`writes
      ensures writes == old(writes) + TaskFile(master, lba, command)
    {
      var select: bv8 := if master then 0xE0 else 0xF0;
      var head := (lba / TWO_24) % 16;
      writes := writes + [Out(DriveHead, (select | head as bv8) as int)];
      writes := writes + [Out(Features, 0x00)];
      writes := writes + [Out(SectorCount, 0x01)];
      writes := writes + [Out(LbaLow, lba % 256)];
      writes := writes + [Out(LbaMid, (lba / 0x100) % 256)];
      writes := writes + [Out(LbaHigh, (lba / 0x1_0000) % 256)];
      writes := writes + [Out(CommandPort, CommandCode(command))];
    }

    /**
     * `read_sector`, with the corrected range check: an address the check
     * refuses yields `OutOfRange` with no port written; otherwise the READ
     * SECTORS task file is sent and the sector is read once the drive is
     * ready.
     */
    method ReadSector(master: bool, descriptor: DiskDescriptor, lba: nat, resp: TransferResponse)
      returns (r: Result<Sector, BusError>)
      requires CheckLbaCorrected(descriptor, lba) != Lba48Only
      modifies this`writes
      ensures CheckLbaCorrected(descriptor, lba) == LbaOutOfRange ==>
        r == Err(FromBlockDeviceError(OutOfRange)) && writes == old(writes)
      ensures CheckLbaCorrected(descriptor, lba) == InRange ==>
        r == ReadOutcome(resp) && writes == old(writes) + TaskFile(master, lba, ReadSectors)
    {
      if lba >= descriptor.lba28Sectors {
        return Err(FromBlockDeviceError(OutOfRange));
      }
      SendTaskFile(master, lba, ReadSectors);
      if resp.busy.Some? {
        return Err(FromErrorRegister(resp.busy.value));
      }
      if resp.drq.Some? {
        return Err(FromErrorRegister(resp.drq.value));
      }
      var buffer := resp.data;
      if resp.settle.Some? {
        return Err(FromErrorRegister(resp.settle.value));
      }
      r := Ok(buffer);
    }

    /**
     * `write_sector`, with the corrected range check: an address the check
     * refuses yields `OutOfRange` with no port written; otherwise the WRITE
     * SECTORS task file, the data and a CACHE FLUSH are sent as the drive
     * becomes ready for each.
     */
    method WriteSector(master: bool, descriptor: DiskDescriptor, lba: nat, buffer: Sector, resp: TransferResponse)
      returns (r: Result<(), BusError>)
      requires CheckLbaCorrected(descriptor, lba) != Lba48Only
      modifies this`writes
      ensures CheckLbaCorrected(descriptor, lba) == LbaOutOfRange ==>
        r == Err(FromBlockDeviceError(OutOfRange)) && writes == old(writes)
      ensures CheckLbaCorrected(descriptor, lba) == InRange ==>
        r == WriteOutcome(resp) && writes == old(writes) + TaskFile(master, lba, WriteSectors) + WriteTail(buffer, resp)
    {
      if lba >= descriptor.lba28Sectors {
        return Err(FromBlockDeviceError(OutOfRange));
      }
      SendTaskFile(master, lba, WriteSectors);
      if resp.busy.Some? {
        return Err(FromErrorRegister(resp.busy.value));
      }
      if resp.drq.Some? {
        return Err(FromErrorRegister(resp.drq.value));
      }
      writes := writes + [DataOut(buffer)];
      if resp.settle.Some? {
        return Err(FromErrorRegister(resp.settle.value));
      }
      if resp.drained.Some? {
        return Err(FromErrorRegister(resp.drained.value));
      }
      if resp.idle.Some? {
        return Err(FromErrorRegister(resp.idle.value));
      }
      writes := writes + [Out(CommandPort, CommandCode(CacheFlush))];
      if resp.flushed.Some? {
        return Err(FromErrorRegister(resp.flushed.value));
      }
      r := Ok(());
    }
  }
}
