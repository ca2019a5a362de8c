/** Octets, as the encodings of the credential rewrite produce and consume them. */
module Bytes {
  type byte = x: int | 0 <= x < 256
}
