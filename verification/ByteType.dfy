/** An unsigned byte. */
module ByteType {
  type Byte = x: int | 0 <= x < 256
}
