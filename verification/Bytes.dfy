/** The bytes of packs and tokens. */
module Bytes {
  type byte = b: int | 0 <= b < 256
}
