/** Java's fixed-width integer arithmetic and its `double` to `int` cast,
    written out over Dafny's unbounded integers and exact reals. */
module JavaNum {

  const INT_MIN: int := -0x8000_0000
  const INT_MAX: int := 0x7fff_ffff

  predicate IsInt32(x: int) {
    INT_MIN <= x <= INT_MAX
  }

  /** A value of Java's `int` type. */
  type Int32 = x: int | IsInt32(x)

  /** The result of a Java `int` operation whose mathematical value is `x`:
      the unique 32-bit value congruent to `x` modulo 2^32. */
  function Wrap32(x: int): (r: Int32)
    ensures (x - r) % 0x1_0000_0000 == 0
    ensures IsInt32(x) ==> r == x
  {
    (x - INT_MIN) % 0x1_0000_0000 + INT_MIN
  }

  /** Rounding toward zero, the rounding of Java's narrowing cast. */
  function TruncReal(x: real): (r: int)
    ensures 0.0 <= x ==> 0 <= r && r as real <= x < r as real + 1.0
    ensures x < 0.0 ==> r <= 0 && r as real - 1.0 < x <= r as real
  {
    if x >= 0.0 then x.Floor else -((-x).Floor)
  }

  /** Java's `(int)` cast of a `double`: rounds toward zero and saturates at
      the bounds of `int`. */
  function DoubleToInt(x: real): (r: Int32)
    ensures IsInt32(TruncReal(x)) ==> r == TruncReal(x)
    ensures TruncReal(x) < INT_MIN ==> r == INT_MIN
    ensures TruncReal(x) > INT_MAX ==> r == INT_MAX
  {
    var t := TruncReal(x);
    if t < INT_MIN then INT_MIN else if t > INT_MAX then INT_MAX else t
  }

}
