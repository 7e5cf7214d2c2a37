/** Optional values (Kotlin's nullable results, C++'s NULL returns) and bytes. */
module Wrappers {

  datatype Option<+T> = None | Some(value: T)

  /** An unsigned 8-bit value, as the packet bytes are read (`toInt() and 0xFF`, `unsigned char`). */
  newtype byte = x: int | 0 <= x < 0x100
}
