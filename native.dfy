/** C++ integer types as the buffers use them: 32-bit `int` and `uint` parameters,
    64-bit unsigned `size_t` positions with their wrap-around, and `std::string::npos`. */
module Native {

  const INT32_MIN: int := -0x8000_0000
  const INT32_LIMIT: int := 0x8000_0000
  const UINT32_LIMIT: int := 0x1_0000_0000
  const SIZE_LIMIT: int := 0x1_0000_0000_0000_0000

  /** `std::string::npos`, the largest `size_t`. */
  const NPOS: nat := SIZE_LIMIT - 1

  /** Largest string the model admits (PTRDIFF_MAX, above any real `max_size()`). */
  const MAX_STRING: nat := 0x7fff_ffff_ffff_ffff

  type int32 = x: int | INT32_MIN <= x < INT32_LIMIT
  type uint32 = x: int | 0 <= x < UINT32_LIMIT
  type size = x: int | 0 <= x < SIZE_LIMIT

  /** Conversion of an `int` argument to a `uint` parameter (two's complement). */
  function ToUint32(x: int32): (r: uint32)
    ensures x >= 0 ==> r == x
    ensures x < 0 ==> r == x + UINT32_LIMIT
  {
    if x >= 0 then x else x + UINT32_LIMIT
  }

  /** Conversion of an `int` to `size_t` in a mixed comparison or sum. */
  function ToSize(x: int32): (r: size)
    ensures x >= 0 ==> r == x
    ensures x < 0 ==> r == x + SIZE_LIMIT
  {
    if x >= 0 then x else x + SIZE_LIMIT
  }

  /** `a - b` on `size_t`, modulo 2^64. */
  function SizeSub(a: size, b: size): size
  {
    if a >= b then a - b else a - b + SIZE_LIMIT
  }

  /** `a + b` on `size_t`, modulo 2^64. */
  function SizeAdd(a: size, b: size): size
  {
    if a + b < SIZE_LIMIT then a + b else a + b - SIZE_LIMIT
  }

  function Min(a: int, b: int): int { if a <= b then a else b }
}
