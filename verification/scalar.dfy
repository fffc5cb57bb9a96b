/** The coordinate scalar. The library is generic over any integer type with
    `+`, `-`, copy, equality, a total order, hashing and a default; its default
    (and the only one `borders` is written for) is `isize`, which is what this
    model fixes, on a 64-bit target. */
module Scalar {

  const ISIZE_MIN: int := -0x8000_0000_0000_0000
  const ISIZE_MAX: int := 0x7FFF_FFFF_FFFF_FFFF
  const USIZE_MAX: int := 0xFFFF_FFFF_FFFF_FFFF

  /** `v` is representable as an `isize`: arithmetic whose result falls outside
      this range panics in a debug build. */
  predicate InIsize(v: int) {
    ISIZE_MIN <= v <= ISIZE_MAX
  }

  type Isize = v: int | ISIZE_MIN <= v <= ISIZE_MAX
  type Usize = n: int | 0 <= n <= USIZE_MAX

  function Abs(v: int): nat {
    if v < 0 then -v else v
  }

  /** `isize::abs_diff`: the distance between two values on the number line,
      which always fits in a `usize`. */
  function AbsDiff(a: Isize, b: Isize): (d: Usize)
    ensures d == Abs(a - b)
  {
    if a < b then b - a else a - b
  }
}
