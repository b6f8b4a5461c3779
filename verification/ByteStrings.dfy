/** Byte strings, as the packets, descriptor programs and ROMs are given. */
module ByteStrings {
  type Byte = x: int | 0 <= x < 256
  type Bytes = seq<Byte>
}
