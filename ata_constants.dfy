/**
 * The register flags, error types and command codes of
 * drivers/ata/src/constants.rs, and the mapping of ATA error registers onto
 * block-device errors.
 */
module AtaConstants {
  import opened BlockDevice
  import opened Digits

  // ---------------------------------------------------------------- ErrorRegisterFlags

  /** Bad block. */
  const BBK: Byte := 0x80
  /** Uncorrectable data error. */
  const UNC: Byte := 0x40
  /** Media changed. */
  const MC: Byte := 0x20
  /** ID mark not found. */
  const IDNF: Byte := 0x10
  /** Media change requested. */
  const MCR: Byte := 0x08
  /** Command aborted. */
  const ABRT: Byte := 0x04
  /** Track 0 not found. */
  const TK0NF: Byte := 0x02
  /** Address mark not found. */
  const AMNF: Byte := 0x01

  // ---------------------------------------------------------------- StatusRegisterFlags

  const BSY: Byte := 0x80
  const DRDY: Byte := 0x40
  const DF: Byte := 0x20
  const DSC: Byte := 0x10
  const DRQ: Byte := 0x08
  const CORR: Byte := 0x04
  const IDX: Byte := 0x02
  const ERR: Byte := 0x01

  /** The number of bits set in the low `n` bits of `b`. */
  function BitCount(b: nat, n: nat): nat {
    if n == 0 then 0 else b % 2 + BitCount(b / 2, n - 1)
  }

  /**
   * `ErrorRegisterFlags::to_device_error`: the match compares the whole
   * register with single flags, so the register is one of the retryable flags
   * alone, one of the bad-sector flags alone, or reported verbatim.
   */
  function ErrorToDeviceError(flags: Byte): (e: BlockDeviceError)
    ensures e == Retry <==> flags in {ABRT, MCR, MC}
    ensures e == BadSector <==> flags in {BBK, UNC}
    ensures e.Unknown? <==> flags !in {ABRT, MCR, MC, BBK, UNC}
    ensures e.Unknown? ==> e.code == flags
    ensures e != OutOfRange && e != TooManyPartitions
  {
    if flags == ABRT || flags == MCR || flags == MC then Retry
    else if flags == BBK || flags == UNC then BadSector
    else Unknown(flags)
  }

  lemma {:induction false} NoBits(n: nat)
    ensures BitCount(0, n) == 0
  {
    if n > 0 {
      NoBits(n - 1);
    }
  }

  /** `2^k` has exactly one bit set among any `n > k` low bits. */
  lemma {:induction false} SingleBit(k: nat, n: nat)
    requires k < n
    ensures BitCount(Pow(2, k), n) == 1
  {
    if k == 0 {
      NoBits(n - 1);
    } else {
      assert Pow(2, k) == 2 * Pow(2, k - 1);
      SingleBit(k - 1, n - 1);
    }
  }

  /** Each of the five classified flags is a single bit of the register. */
  lemma ClassifiedFlagsAreSingleBits()
    ensures BitCount(ABRT, 8) == 1 && BitCount(MCR, 8) == 1 && BitCount(MC, 8) == 1
    ensures BitCount(BBK, 8) == 1 && BitCount(UNC, 8) == 1
  {
    assert Pow(2, 2) == ABRT && Pow(2, 3) == MCR && Pow(2, 5) == MC by {
      assert Pow(2, 1) == 2;
      assert Pow(2, 4) == 16;
    }
    assert Pow(2, 7) == BBK && Pow(2, 6) == UNC;
    SingleBit(2, 8);
    SingleBit(3, 8);
    SingleBit(5, 8);
    SingleBit(6, 8);
    SingleBit(7, 8);
  }

  /** An empty register, or one with two or more flags raised together, is never classified: it is reported as `Unknown` with its bits. */
  lemma CombinationsAreUnknown(flags: Byte)
    requires BitCount(flags, 8) != 1
    ensures ErrorToDeviceError(flags) == Unknown(flags)
  {
    ClassifiedFlagsAreSingleBits();
  }

  // ---------------------------------------------------------------- BusError

  /** `BusError`: a block-device error, or the raw error register of a failed ATA command. */
  datatype BusError = BlockDeviceError(error: BlockDeviceError) | AtaError(flags: Byte)

  /** `BusError::to_device_error`. */
  function BusToDeviceError(e: BusError): BlockDeviceError {
    match e
    case BlockDeviceError(d) => d
    case AtaError(flags) => ErrorToDeviceError(flags)
  }

  /** `From<BlockDeviceError> for BusError`. */
  function FromBlockDeviceError(e: BlockDeviceError): BusError {
    BlockDeviceError(e)
  }

  /** `From<ErrorRegisterFlags> for BusError`. */
  function FromErrorRegister(flags: Byte): BusError {
    AtaError(flags)
  }

  /** Wrapping a block-device error and converting back is the identity; wrapping a register applies the flag rule. */
  lemma BusErrorRoundTrip(e: BlockDeviceError, flags: Byte)
    ensures BusToDeviceError(FromBlockDeviceError(e)) == e
    ensures BusToDeviceError(FromErrorRegister(flags)) == ErrorToDeviceError(flags)
    ensures FromBlockDeviceError(e) != FromErrorRegister(flags)
  {
  }

  // ---------------------------------------------------------------- ATAIdentifyError

  /** `ATAIdentifyError`, a `#[repr(u8)]` enum. */
  datatype IdentifyError = BusNotConnected | NoDevice | DeviceIsNotATA | DeviceIsATAPI | DeviceIsSATA | UnknownDevice

  // ---------------------------------------------------------------- ATACommands

  /** `ATACommands`, a `#[repr(u8)]` enum. */
  datatype Command = Identify | WriteSectors | ReadSectors | CacheFlush

  /** The command register value of each command. */
  function CommandCode(c: Command): Byte {
    match c
    case Identify => 0xEC
    case WriteSectors => 0x30
    case ReadSectors => 0x20
    case CacheFlush => 0xE7
  }
}
