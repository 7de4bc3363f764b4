/** Fixed-width C integer types of the firmware, written out as subsets of int,
    and the Option wrapper used for absent values. */
module CInt {

  type uint8 = x: int | 0 <= x < 0x100
  type uint16 = x: int | 0 <= x < 0x1_0000
  type uint32 = x: int | 0 <= x < 0x1_0000_0000
  type int32 = x: int | -0x8000_0000 <= x < 0x8000_0000

  /** The value a C `uint32_t` holds after an assignment of `x` (wrap-around modulo 2^32). */
  function Wrap32(x: int): uint32 {
    x % 0x1_0000_0000
  }

  datatype Option<+T> = None | Some(value: T)
}
