/** Go's uint64 and int64 conversions, with the wrap-around written out. */
module Word {
  const TWO_64 := 0x1_0000_0000_0000_0000
  const TWO_63 := 0x8000_0000_0000_0000

  type uint64 = x: int | 0 <= x < TWO_64

  /** A 64-bit signed value, such as the unix seconds a clock reports. */
  type int64 = x: int | -TWO_63 <= x < TWO_63

  function Add(a: uint64, b: uint64): uint64 {
    (a + b) % TWO_64
  }

  function Sub(a: uint64, b: uint64): uint64 {
    (a - b) % TWO_64
  }

  /** uint64(x) for a signed x. */
  function FromInt64(x: int64): uint64 {
    x % TWO_64
  }

  function Max(a: int, b: int): int {
    if a < b then b else a
  }
}
