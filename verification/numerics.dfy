/** The C# numeric conventions the model needs spelled out: 32-bit integers
    with wrap-around, double-to-int truncation toward zero, Math.Min and
    Math.Clamp. Doubles are modelled as reals. */
module Numerics {

  const TwoTo31: int := 0x8000_0000
  const TwoTo32: int := 0x1_0000_0000

  /** A C# `int`. */
  type int32 = x: int | -0x8000_0000 <= x < 0x8000_0000

  predicate InInt32(x: int) {
    -TwoTo31 <= x < TwoTo31
  }

  /** Unchecked 32-bit arithmetic: the int32 congruent to `x` modulo 2^32. */
  function Wrap32(x: int): (r: int32)
    ensures (r - x) % TwoTo32 == 0
    ensures InInt32(x) ==> r == x
  {
    (x + TwoTo31) % TwoTo32 - TwoTo31
  }

  /** Two ints congruent modulo 2^32 wrap to the same int32. */
  lemma WrapCongruent(x: int, y: int)
    requires (x - y) % TwoTo32 == 0
    ensures Wrap32(x) == Wrap32(y)
  {
    var a, b := Wrap32(x), Wrap32(y);
    var k, m, n := (a - x) / TwoTo32, (x - y) / TwoTo32, (y - b) / TwoTo32;
    assert a - x == k * TwoTo32 && x - y == m * TwoTo32 && y - b == n * TwoTo32;
    assert a - b == (k + m + n) * TwoTo32;
    assert -TwoTo32 < a - b < TwoTo32;
  }

  /** Wrapping an intermediate sum changes nothing: unchecked additions in a
      row wrap only the final total. */
  lemma WrapThenAdd(x: int, d: int)
    ensures Wrap32(Wrap32(x) + d) == Wrap32(x + d)
  {
    assert (Wrap32(x) + d - (x + d)) % TwoTo32 == 0;
    WrapCongruent(Wrap32(x) + d, x + d);
  }

  /** The C# cast `(int) v` of a double: truncation toward zero. */
  function TruncToZero(v: real): (n: int)
    ensures v >= 0.0 ==> n as real <= v < n as real + 1.0
    ensures v < 0.0 ==> n as real - 1.0 < v <= n as real
  {
    if v >= 0.0 then v.Floor else -((-v).Floor)
  }

  function Min(a: int, b: int): (m: int)
    ensures m <= a && m <= b
    ensures m == a || m == b
  {
    if a <= b then a else b
  }

  /** Math.Clamp(v, lo, hi); it throws when lo > hi, which no caller here does. */
  function Clamp(v: real, lo: real, hi: real): (r: real)
    requires lo <= hi
    ensures lo <= r <= hi
    ensures lo <= v <= hi ==> r == v
    ensures v < lo ==> r == lo
    ensures v > hi ==> r == hi
  {
    if v < lo then lo else if v > hi then hi else v
  }
}
