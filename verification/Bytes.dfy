/** Bytes, as files, keys and messages are made of. */
module Bytes {
  type byte = b: int | 0 <= b < 256
}
