/** What several components need: optional values, machine word sizes, the larger of two numbers. */
module Common {

  datatype Option<+T> = None | Some(value: T)

  const TWO_64: int := 0x1_0000_0000_0000_0000
  const TWO_32: int := 0x1_0000_0000

  type UInt64 = x: int | 0 <= x < 0x1_0000_0000_0000_0000
  type UInt32 = x: int | 0 <= x < 0x1_0000_0000

  function Max(a: int, b: int): int { if a > b then a else b }
}
