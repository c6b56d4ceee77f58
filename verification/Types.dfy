/** The machine's integers, and optional values. */
module Types {
  type byte = b: int | 0 <= b < 0x100
  type half = h: int | 0 <= h < 0x1_0000
  type word = w: int | 0 <= w < 0x1_0000_0000
  type long = w: int | 0 <= w < 0x1_0000_0000_0000_0000

  const WORD := 0x1_0000_0000

  datatype Option<+T> = None | Some(value: T)
}
