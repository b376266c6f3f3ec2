/** What input and output channels share. */
module ChannelBuffer {
  newtype Byte = x: int | 0 <= x < 256

  const BUFFER_SIZE := 4096
  const INT_MAX := 0x7FFF_FFFF
}
