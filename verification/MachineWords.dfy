/** The word sizes of a 64-bit build. */
module MachineWords {
  /** 2^32 and 2^64: the values of uint32_t and of size_t stay below. */
  const UINT32: nat := 0x1_0000_0000
  const UINT64: nat := 0x1_0000_0000_0000_0000
}
