/** The fixed-width numbers of the source, as ranges of the integers. */
module MachineTypes {
  newtype byte = b: int | 0 <= b < 256

  type bytes = seq<byte>

  const U32_MAX: nat := 0xFFFF_FFFF
  const U64_MAX: nat := 0xFFFF_FFFF_FFFF_FFFF
  const I64_MAX: nat := 0x7FFF_FFFF_FFFF_FFFF

  type u32 = n: nat | n <= U32_MAX

  type u64 = n: nat | n <= U64_MAX
}
