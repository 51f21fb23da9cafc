/** The memory the allocators divide: its place, its pages, and ranges of its bytes. */
module Memory {
  const PAGE_SIZE: nat := 4096

  /** Where the kernel's own image ends, behind the start of the memory. */
  const KERNEL_OFFSET: nat := 4000000

  /** What FwPMMStart and FwPMMSize report (inufw/platform/pc/base.c). */
  const FIRMWARE_START: nat := 0x8060_0000
  const FIRMWARE_SIZE: nat := 0x2000_0000

  /** Bytes from, ..., to - 1. */
  datatype Bytes = Bytes(from: nat, to: nat)

  predicate Disjoint(a: Bytes, b: Bytes) {
    a.to <= b.from || b.to <= a.from
  }
}
