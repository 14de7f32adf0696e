/** Go's fixed-width integers. */
module Ints {
  const TWO_31: int := 0x8000_0000
  const TWO_32: int := 0x1_0000_0000
  const TWO_63: int := 0x8000_0000_0000_0000
  const TWO_64: int := 0x1_0000_0000_0000_0000

  type int32 = n: int | -TWO_31 <= n < TWO_31
  type uint32 = n: int | 0 <= n < TWO_32
  type int64 = n: int | -TWO_63 <= n < TWO_63
  type uint64 = n: int | 0 <= n < TWO_64
}
