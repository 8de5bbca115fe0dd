/** The kernel's fixed-width integer types, page size and error numbers,
    shared by the drivers modelled here. */
module Kernel {
  type u8 = x: int | 0 <= x < 0x100
  type u16 = x: int | 0 <= x < 0x1_0000
  type u32 = x: int | 0 <= x < 0x1_0000_0000

  const PAGE_SIZE: nat := 4096
  const PAGE_SHIFT: nat := 12

  const UINT_MAX: nat := 0xFFFF_FFFF
  const ULONG_MAX: nat := 0xFFFF_FFFF_FFFF_FFFF

  // Error numbers (returned negated).
  const EPERM: int := 1
  const ENOMEM: int := 12
  const EFAULT: int := 14
  const EINVAL: int := 22
  const ENOSYS: int := 38
  const EBADR: int := 53
}
