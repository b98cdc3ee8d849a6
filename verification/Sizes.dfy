/** The bounds of integer types and the overflow checks of src/memory_internal.h. */
module Sizes {
  const SIZE_MAX := 0xFFFF_FFFF_FFFF_FFFF
  const PTRDIFF_MAX := 0x7FFF_FFFF_FFFF_FFFF
  const INT32_MAX := 0x7FFF_FFFF
  const INT32_MIN := -0x8000_0000
  const INT64_MAX := 0x7FFF_FFFF_FFFF_FFFF

  /** A division tells whether a product exceeds a bound. */
  lemma QuotientBound(a: int, b: int, m: int)
    requires 0 <= a && 0 < b && 0 <= m
    ensures a > m / b <==> a * b > m
  {
    assert m == b * (m / b) + m % b;
    if a > m / b {
      assert a * b >= (m / b + 1) * b;
    } else {
      assert a * b <= (m / b) * b;
    }
  }

  /** gk_size_add and gk_size_mul: whether the result is representable. */
  method SizeAdd(left: int, right: int) returns (ok: bool, sum: int)
    requires 0 <= left <= SIZE_MAX && 0 <= right <= SIZE_MAX
    ensures ok == (left + right <= SIZE_MAX) && (ok ==> sum == left + right)
  {
    if left > SIZE_MAX - right {
      return false, 0;
    }
    return true, left + right;
  }

  method SizeMul(left: int, right: int) returns (ok: bool, product: int)
    requires 0 <= left <= SIZE_MAX && 0 <= right <= SIZE_MAX
    ensures ok == (left * right <= SIZE_MAX) && (ok ==> product == left * right)
  {
    if left != 0 {
      QuotientBound(right, left, SIZE_MAX);
    }
    if left != 0 && right > SIZE_MAX / left {
      return false, 0;
    }
    return true, left * right;
  }
}
