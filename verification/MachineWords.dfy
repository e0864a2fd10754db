/** The machine's integer types, and the bit operations the sources use on them. */
module MachineWords {
  const TWO_8 := 0x100
  const TWO_16 := 0x1_0000
  const TWO_31 := 0x8000_0000
  const TWO_32 := 0x1_0000_0000
  const TWO_63 := 0x8000_0000_0000_0000
  const TWO_64 := 0x1_0000_0000_0000_0000

  type byte = x: int | 0 <= x < TWO_8
  type uint16 = x: int | 0 <= x < TWO_16
  type uint32 = x: int | 0 <= x < TWO_32
  type int8 = x: int | -0x80 <= x < 0x80
  type int16 = x: int | -0x8000 <= x < 0x8000
  type int32 = x: int | -TWO_31 <= x < TWO_31
  type int64 = x: int | -TWO_63 <= x < TWO_63

  /** `x | 1U`, `x & ~1U` and `x & 1U`. */
  function SetBit0(x: nat): (r: nat)
    ensures x < TWO_32 ==> r < TWO_32
  {
    if x % 2 == 0 then x + 1 else x
  }
  function ClearBit0(x: nat): nat { x - x % 2 }
  predicate Bit0(x: nat) { x % 2 == 1 }

  function Min(a: int, b: int): int { if a < b then a else b }
  function Max(a: int, b: int): int { if a < b then b else a }
}
