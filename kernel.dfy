/** Vocabulary shared by the drivers: register word widths and the kernel's error numbers
    (a driver returns `-E...` on failure and 0 on success). */
module Kernel {
  /** A 32-bit memory-mapped register word (`u32`, `readl`/`writel`). */
  type Word = bv32
  /** A 16-bit register halfword (`unsigned short`, `readw`/`writew`). */
  type Half = bv16
  /** One byte of a transfer buffer (`u8`). */
  type Byte = bv8

  const EPERM: int := 1
  const EIO: int := 5
  const ENODEV: int := 19
  const EINVAL: int := 22
  const ENOSYS: int := 38
  const ETIMEDOUT: int := 110

  /** `max(a, b)` on naturals. */
  function Max(a: nat, b: nat): nat {
    if a < b then b else a
  }

  /** `v` with the bits of `field` all set (`on`) or all clear, the others kept: the
      read-modify-write `v |= field` or `v &= ~field` of a register. */
  function WithBits(v: Word, field: Word, on: bool): Word {
    (v & !field) | (if on then field else 0)
  }

  /** WithBits sets or clears exactly the bits of `field`. */
  lemma WithBitsFields(v: Word, field: Word, on: bool)
    ensures WithBits(v, field, on) & field == (if on then field else 0)
    ensures WithBits(v, field, on) & !field == v & !field
  {
  }

  /** Concatenation regrouped; the solver does not always find it unaided in large
      contexts. */
  lemma AppendAssoc<T>(a: seq<T>, b: seq<T>, c: seq<T>)
    ensures a + b + c == a + (b + c)
  {
  }
}
