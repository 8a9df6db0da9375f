/** Conversion of a raw 24-bit channel code into a signed sample count, as the
    acquisition software does before scaling to volts. */
module Conversion {

  /** 2^23: the weight of the sign bit of a 24-bit two's-complement code. */
  const SIGN_BIT: int := 0x80_0000
  /** 2^24: the number of distinct 24-bit codes. */
  const CODE_RANGE: int := 0x100_0000

  /** A raw channel code as assembled from three bytes. */
  predicate IsCode(v: int) {
    0 <= v < CODE_RANGE
  }

  /** Sign extension of the low 24 bits of `value`: the arithmetic meaning of
      `(value << 8) >> 8` on a 32-bit int.  The result is the unique number in
      the signed 24-bit range that agrees with `value` modulo 2^24. */
  function Transform(value: int): (r: int)
    ensures -SIGN_BIT <= r < SIGN_BIT
    ensures (value - r) % CODE_RANGE == 0
  {
    var low := value % CODE_RANGE;
    if low < SIGN_BIT then low else low - CODE_RANGE
  }

  /** A 32-bit `int` holding `x` after wrap-around: the number in the
      signed 32-bit range that agrees with `x` modulo 2^32. */
  function WrapInt32(x: int): (r: int)
    ensures -0x8000_0000 <= r < 0x8000_0000
    ensures (x - r) % 0x1_0000_0000 == 0
  {
    var low := x % 0x1_0000_0000;
    if low < 0x8000_0000 then low else low - 0x1_0000_0000
  }

  /** `(int)(value << 8) >> 8` as a compiler that wraps evaluates it: the
      left shift wraps into a 32-bit `int`, and the right shift of a signed
      `int` is arithmetic, i.e. division by 256 rounding down. */
  function ShiftPair(value: int): int {
    WrapInt32(value * 0x100) / 0x100
  }

  /** On every 24-bit code, the shift pair of the source and `Transform`
      agree. */
  lemma ShiftPairIsTransform(v: int)
    requires IsCode(v)
    ensures ShiftPair(v) == Transform(v)
  {
  }

  /** The device side of the conversion: the 24-bit code that carries a signed
      reading. */
  function ToCode(x: int): (c: int)
    requires -SIGN_BIT <= x < SIGN_BIT
    ensures IsCode(c)
    ensures Transform(c) == x
  {
    if x < 0 then x + CODE_RANGE else x
  }

  /** On codes, the conversion keeps the lower half and shifts the upper half
      down by 2^24. */
  lemma TransformOnCodes(v: int)
    requires IsCode(v)
    ensures v < SIGN_BIT ==> Transform(v) == v
    ensures SIGN_BIT <= v ==> Transform(v) == v - CODE_RANGE
  {
  }

  /** Two different codes never convert to the same reading. */
  lemma TransformInjective(a: int, b: int)
    requires IsCode(a) && IsCode(b)
    requires Transform(a) == Transform(b)
    ensures a == b
  {
    TransformOnCodes(a);
    TransformOnCodes(b);
  }

  /** Converting a code and encoding the reading again gives the code back. */
  lemma CodeRoundTrip(c: int)
    requires IsCode(c)
    ensures ToCode(Transform(c)) == c
  {
    TransformInjective(ToCode(Transform(c)), c);
  }

  /** Every reading in the signed 24-bit range is reached by exactly its code. */
  lemma ReadingRoundTrip(x: int)
    requires -SIGN_BIT <= x < SIGN_BIT
    ensures Transform(ToCode(x)) == x
    ensures forall c :: IsCode(c) && Transform(c) == x ==> c == ToCode(x)
  {
    forall c | IsCode(c) && Transform(c) == x
      ensures c == ToCode(x)
    {
      TransformInjective(c, ToCode(x));
    }
  }

  /** The boundary codes of the 24-bit range. */
  lemma TransformBoundaries()
    ensures Transform(0x00_0000) == 0
    ensures Transform(0x00_0001) == 1
    ensures Transform(0xFF_FFFF) == -1
    ensures Transform(0x7F_FFFF) == SIGN_BIT - 1
    ensures Transform(0x80_0000) == -SIGN_BIT
  {
  }
}
