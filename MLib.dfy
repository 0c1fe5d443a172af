/** The arithmetic helper macros of the MLib header: alignment round-up, flag
    test, maximum and minimum.  The macros are applied to 32-bit unsigned
    values in the library, so they are modelled on bv32, where `+` and `-`
    wrap around exactly as uint32_t arithmetic does. */
module MLib {

  /** `a` has exactly one bit set. */
  predicate PowerOfTwo(a: bv32) {
    a != 0 && a & (a - 1) == 0
  }

  /** The bits of `x` below the (power-of-two) alignment `a` are all clear,
      that is, `x` is a multiple of `a`. */
  predicate IsAligned(x: bv32, a: bv32) {
    x & (a - 1) == 0
  }

  /** `value + (alignment - 1)` does not wrap around 2^32. */
  predicate AlignFits(value: bv32, alignment: bv32) {
    value <= 0xFFFF_FFFF - (alignment - 1)
  }

  /** MLIB_ALIGN: round `value` up to the next multiple of `alignment`. */
  function Align(value: bv32, alignment: bv32): (r: bv32)
    ensures PowerOfTwo(alignment) ==> IsAligned(r, alignment)
  {
    (value + (alignment - 1)) & !(alignment - 1)
  }

  /** Without wrap-around the result lies in [value, value + alignment). */
  lemma AlignBounds(value: bv32, alignment: bv32)
    requires PowerOfTwo(alignment) && AlignFits(value, alignment)
    ensures value <= Align(value, alignment)
    ensures Align(value, alignment) - value < alignment
  {
  }

  /** No aligned value between `value` and the result: it is the least one. */
  lemma AlignIsLeast(value: bv32, alignment: bv32, m: bv32)
    requires PowerOfTwo(alignment) && AlignFits(value, alignment)
    requires IsAligned(m, alignment) && value <= m
    ensures Align(value, alignment) <= m
  {
  }

  /** Aligning twice is aligning once, and aligned values are fixed points. */
  lemma AlignIdempotent(value: bv32, alignment: bv32)
    requires PowerOfTwo(alignment)
    ensures Align(Align(value, alignment), alignment) == Align(value, alignment)
    ensures Align(value, alignment) == value <==> IsAligned(value, alignment)
  {
  }

  /** Bit `i` of `x` is set. */
  predicate Bit(x: bv32, i: bv32)
    requires i < 32
  {
    x & (1 << i) != 0
  }

  /** MLIB_HAVE_FLAG: every bit of `flag` is set in `value`. */
  function HaveFlag(value: bv32, flag: bv32): (r: bool)
    ensures r <==> flag & !value == 0
    ensures r <==> value | flag == value
  {
    value & flag == flag
  }

  /** Each bit of a flag that `value` has is a bit of `value`. */
  lemma HaveFlagBit(value: bv32, flag: bv32, i: bv32)
    requires i < 32 && HaveFlag(value, flag) && Bit(flag, i)
    ensures Bit(value, i)
  {
  }

  /** MLIB_MAX */
  function Max(a: int, b: int): (r: int)
    ensures r == a || r == b
    ensures r >= a && r >= b
  {
    if a > b then a else b
  }

  /** MLIB_MIN */
  function Min(a: int, b: int): (r: int)
    ensures r == a || r == b
    ensures r <= a && r <= b
  {
    if a < b then a else b
  }
}
