/** The limits of machine integers, for a 64-bit target. */
module Numbers {
  const TWO_32: nat := 0x1_0000_0000
  const U32_MAX: nat := 0xFFFF_FFFF
  const U64_MAX: nat := 0xFFFF_FFFF_FFFF_FFFF
  const USIZE_MAX: nat := U64_MAX

  function Min(a: nat, b: nat): nat {
    if a < b then a else b
  }
}
