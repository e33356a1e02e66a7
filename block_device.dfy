/** The error type every block device reports (internal_utils/src/block_device/mod.rs). */
module BlockDevice {
  import opened Digits

  /** The contents of one 512-byte sector. */
  type Sector = s: seq<Byte> | |s| == 512 witness seq(512, _ => 0)

  /** `BlockDeviceError`. */
  datatype BlockDeviceError =
    | BadSector
    | Retry
    | OutOfRange
    | TooManyPartitions
    | Unknown(code: Byte)
}
