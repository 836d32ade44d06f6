/** Machine integers of the compression libraries, as mathematical integers with their range. */
module Bytes {

  type byte = x: int | 0 <= x < 256

  type u16 = x: int | 0 <= x < 0x1_0000

  type u32 = x: int | 0 <= x < 0x1_0000_0000

  datatype Option<+T> = None | Some(value: T)
}
