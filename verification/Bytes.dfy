/** Bytes, and the UTF-8 that files, URLs and reports are written in. */
module Bytes {
  type Byte = b: int | 0 <= b < 256
}
