/** The C++ uint8_t. */
module ByteType {
  type byte = x: int | 0 <= x < 256
}
