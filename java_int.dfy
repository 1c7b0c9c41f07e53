/** Java `int` arithmetic: two's-complement 32-bit values with wrap-around. */
module JavaInt {

  const TWO_31: int := 0x8000_0000
  const TWO_32: int := 0x1_0000_0000

  /** Integer.MAX_VALUE */
  const INT_MAX: int := 0x7FFF_FFFF

  /** A value of Java type `int`. */
  type int32 = x: int | -0x8000_0000 <= x < 0x8000_0000

  /** The bit pattern of an `int`, read as an unsigned number. */
  type uint32 = x: int | 0 <= x < 0x1_0000_0000

  /** The `int` that a Java addition or subtraction yields for the mathematical value `x`. */
  function Wrap(x: int): (r: int32)
    ensures (x - r) % TWO_32 == 0
    ensures -TWO_31 <= x < TWO_31 ==> r == x
    ensures TWO_31 <= x < TWO_31 + TWO_32 ==> r == x - TWO_32
  {
    (x + TWO_31) % TWO_32 - TWO_31
  }

  /** Reinterprets an unsigned 32-bit pattern as a Java `int`. */
  function Signed(u: uint32): (v: int32)
    ensures (u - v) % TWO_32 == 0
    ensures u < TWO_31 ==> v == u
  {
    if u < TWO_31 then u else u - TWO_32
  }

  /** The unsigned 32-bit pattern of a Java `int`. */
  function Unsigned(v: int32): (u: uint32)
    ensures (u - v) % TWO_32 == 0
    ensures 0 <= v ==> u == v
  {
    if v < 0 then v + TWO_32 else v
  }

  /** Two numbers congruent modulo 2^32 wrap to the same `int`. */
  lemma WrapCongruent(x: int, y: int)
    requires (x - y) % TWO_32 == 0
    ensures Wrap(x) == Wrap(y)
  {
    var k := (x - y) / TWO_32;
    assert x == y + k * TWO_32;
    assert (x + TWO_31) % TWO_32 == (y + TWO_31) % TWO_32;
  }

  /** Signed and Unsigned are inverse bijections between int32 and uint32. */
  lemma SignedUnsigned(v: int32, u: uint32)
    ensures Signed(Unsigned(v)) == v
    ensures Unsigned(Signed(u)) == u
  {
  }
}
