/** The ranges of the machine integers that the source computes in. */
module Machine {
  const INT_MAX := 0x7FFF_FFFF
  const UINT32 := 0x1_0000_0000
  const UINT64 := 0x1_0000_0000_0000_0000
  const UINT128 := 0x1_0000_0000_0000_0000_0000_0000_0000_0000
}
