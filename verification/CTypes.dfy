/** The C integer conversions the modelled code relies on (64-bit size_t and uintptr_t). */
module CTypes {
  newtype byte = x: int | 0 <= x < 256

  newtype int32 = x: int | -0x8000_0000 <= x < 0x8000_0000

  const INT_LIMIT: int := 0x8000_0000
  const UINT_LIMIT: int := 0x1_0000_0000
  const SIZE_LIMIT: int := 0x1_0000_0000_0000_0000

  /** Conversion to uint32_t. */
  function ToUint32(x: int): int { x % UINT_LIMIT }

  /** Conversion to int32_t, two's complement. */
  function ToInt32(x: int): (r: int)
    ensures -INT_LIMIT <= r < INT_LIMIT
  {
    if x % UINT_LIMIT < INT_LIMIT then x % UINT_LIMIT else x % UINT_LIMIT - UINT_LIMIT
  }

  /** Conversion to size_t, uint64_t or uintptr_t; a negative int is sign-extended first. */
  function ToSizeT(x: int): int { x % SIZE_LIMIT }

  predicate IsUint64(x: int) { 0 <= x < SIZE_LIMIT }

  function Pow2(k: nat): (p: nat)
    ensures p > 0
  {
    if k == 0 then 1 else 2 * Pow2(k - 1)
  }
}
