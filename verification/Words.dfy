/** The machine integers of the C sources. */
module Words {

  const TWO_32: int := 0x1_0000_0000
  const TWO_63: int := 0x8000_0000_0000_0000
  const TWO_64: int := 0x1_0000_0000_0000_0000

  type u8 = x: int | 0 <= x < 256
  type u32 = x: int | 0 <= x < TWO_32
  type u64 = x: int | 0 <= x < TWO_64
  type i64 = x: int | -TWO_63 <= x < TWO_63

  /** Marks the result of one signed 64-bit operation of the source: the precondition is
      the absence of overflow, which C leaves undefined. */
  function I64(x: int): i64
    requires -TWO_63 <= x < TWO_63
  {
    x
  }

  /** The character codes of a text. */
  function Ascii(text: string): (codes: seq<u8>)
    ensures |codes| == |text|
  {
    seq(|text|, k requires 0 <= k < |text| => text[k] as int % 256)
  }

  /** Arithmetic right shift of a two's-complement value: division by the power of two, rounding
      down. */
  function Shr(x: int, power: int): int
    requires 0 < power
  {
    x / power
  }
}
