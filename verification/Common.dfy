/** Machine integers and small helpers shared by every component. */
module Common {
  type Byte = x: int | 0 <= x < 256

  type U16 = x: int | 0 <= x < 0x1_0000
  type U24 = x: int | 0 <= x < 0x100_0000
  type U32 = x: int | 0 <= x < 0x1_0000_0000
  type U64 = x: int | 0 <= x < 0x1_0000_0000_0000_0000

  const TWO_16: int := 0x1_0000
  const TWO_24: int := 0x100_0000
  const TWO_32: int := 0x1_0000_0000
  const TWO_64: int := 0x1_0000_0000_0000_0000

  datatype Option<+T> = None | Some(value: T)

  function Min(a: int, b: int): int { if a <= b then a else b }

  function Max(a: int, b: int): int { if a >= b then a else b }
}
