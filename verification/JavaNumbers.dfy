/** Java's fixed-width signed integers, as the numbers they stand for. */
module JavaNumbers {
  import opened ByteSeqs

  const TWO_TO_16 := 0x1_0000
  const TWO_TO_31 := 0x8000_0000
  const TWO_TO_32 := 0x1_0000_0000
  const TWO_TO_63 := 0x8000_0000_0000_0000
  const TWO_TO_64 := 0x1_0000_0000_0000_0000
  const TWO_TO_56 := 0x100_0000_0000_0000

  type Int16 = v: int | -0x8000 <= v < 0x8000
  type Int32 = v: int | -0x8000_0000 <= v < 0x8000_0000
  type Int64 = v: int | -0x8000_0000_0000_0000 <= v < 0x8000_0000_0000_0000

  /** The value of a byte as Java's signed byte. */
  function Signed8(b: Byte): int {
    if b < 128 then b else b - 256
  }

  /** The value of a byte under the mask 0xFF. */
  function Unsigned8(b: Byte): int { b }

  /** The int that the lowest 32 bits of v stand for. */
  function Wrap32(v: int): Int32 {
    if v % TWO_TO_32 < TWO_TO_31 then v % TWO_TO_32 else v % TWO_TO_32 - TWO_TO_32
  }

  function Wrap64(v: int): Int64 {
    if v % TWO_TO_64 < TWO_TO_63 then v % TWO_TO_64 else v % TWO_TO_64 - TWO_TO_64
  }
}
