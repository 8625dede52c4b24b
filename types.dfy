/**
 * Machine-level value types shared by every component of the emulator:
 * bytes, 16-bit memory addresses, and the Option/Result wrappers that stand
 * for the C++ exceptions the containers throw.
 */
module Types {

  /** `std::byte` and `uint8_t`: an unsigned eight-bit value. */
  newtype byte = b: int | 0 <= b < 0x100

  /** `memory::mem_addr` is a `uint16_t`. */
  type Addr = a: nat | a < 0x1_0000

  /** `size_t` on a 64-bit target. */
  const SizeTModulus: nat := 0x1_0000_0000_0000_0000

  datatype Option<T> = None | Some(value: T)

  /**
   * The exceptions the containers throw: `std::out_of_range` from a checked
   * `std::vector::at`, and `std::runtime_error` with its message.
   */
  datatype Exception = OutOfRange | RuntimeError(message: string)

  /**
   * The outcome of an operation that can throw: `Ok` carries the value
   * returned, `Err` the exception thrown.
   */
  datatype Result<T> = Ok(value: T) | Err(error: Exception)
}
