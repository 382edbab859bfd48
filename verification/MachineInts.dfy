/** Fixed-width unsigned integers. */
module MachineInts {

  const U32_MODULUS := 0x1_0000_0000
  const U64_MODULUS := 0x1_0000_0000_0000_0000

  type u32 = n: int | 0 <= n < U32_MODULUS
  type u64 = n: int | 0 <= n < U64_MODULUS

  function Min(a: int, b: int): int { if a <= b then a else b }

  /** `saturating_sub`, at any width. */
  function SaturatingSub(x: nat, y: nat): nat { if x >= y then x - y else 0 }
}
