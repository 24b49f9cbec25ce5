/** The byte, shared by the cache's views and the encodings of strings. */
module Bytes {

  /** One byte of a Go `[]byte`. */
  newtype byte = x: int | 0 <= x < 256
}
