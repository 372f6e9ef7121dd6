/** Bytes, as paths and machine formats carry them. */
module Bytes {
  type byte = n: int | 0 <= n < 256
}
