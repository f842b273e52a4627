/** Bytes of commands and stored records, as numbers. */
module Bytes {
  type byte = x: int | 0 <= x < 256
}
