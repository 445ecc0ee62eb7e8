module ByteValues {
  type Byte = b: nat | b < 256
}
