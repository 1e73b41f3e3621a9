/** Page sizes and the flag bits of EPT entries, shared by both tables. */
module EptFlags {
  const PAGE: nat := 4096
  const GIB: nat := 0x4000_0000

  const EPT_READ: nat := 1
  const EPT_WRITE: nat := 2
  const EPT_EXECUTE: nat := 4
  const EPT_MEMORY_TYPE_WB: nat := 48
  const EPT_LARGE_PAGE: nat := 128
  const EPTP_WB: nat := 6
  const EPTP_WALK_LENGTH_4: nat := 24
}
