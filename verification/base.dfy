/** Fixed-width unsigned integer types of the Rust source, as subsets of int. */
module Ints {
  const U16_MAX: int := 0xFFFF
  const U32_MAX: int := 0xFFFF_FFFF
  const U64_LIMIT: int := 0x1_0000_0000_0000_0000

  type u8 = x: int | 0 <= x < 0x100
  type u16 = x: int | 0 <= x <= 0xFFFF
  type u32 = x: int | 0 <= x <= 0xFFFF_FFFF
  type u64 = x: int | 0 <= x < 0x1_0000_0000_0000_0000
}

/** Option and Result, the two wrappers the source uses for absence and failure. */
module Wrappers {
  datatype Option<+T> = None | Some(value: T)

  datatype Result<+T, +E> = Ok(value: T) | Err(error: E)
}

/** The error values that cross the boundary of the core (`UtilError` and what it wraps). */
module Errors {
  /** The subset of `rusb::Error` the core tells apart: `NoDevice` is special, the rest are opaque. */
  datatype UsbError = NoDevice | OtherUsb(code: int)

  /** `dfu_libusb::Error`: a transport error, or any protocol-level failure. */
  datatype DfuError = LibUsb(usb: UsbError) | Protocol(code: int)

  /** `goblin::error::Error`: only the `Malformed` case is produced by the core itself. */
  datatype ElfError = Malformed | Unparsable(code: int)

  /** `UtilError` of src/utils.rs. */
  datatype UtilError = Elf(elf: ElfError) | Dfu(dfu: DfuError) | File(io: int)
}
