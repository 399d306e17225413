/** The unsigned value of a C char. */
module Bytes {
  type Byte = b: int | 0 <= b < 256
}
