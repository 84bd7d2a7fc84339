/** Addresses, bytes, and the memory of a target process. */
module Memory {
  datatype Option<+T> = None | Some(value: T)

  const TOP: int := 0xFFFF_FFFF_FFFF_FFFF

  type Byte = x: int | 0 <= x < 0x100
  type Addr = x: int | 0 <= x <= 0xFFFF_FFFF_FFFF_FFFF

  /** Mapped bytes only; anything else cannot be read. */
  type Mem = map<Addr, Byte>

  /** Byte `a` is one of the `size` from `address` on. */
  predicate Within(address: int, size: int, a: int) { address <= a < address + size }

  function Min(a: int, b: int): int { if a < b then a else b }
  function Max(a: int, b: int): int { if a > b then a else b }
}
