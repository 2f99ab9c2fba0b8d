/** Java integer semantics that the core relies on: 32- and 64-bit two's-complement
    wrap-around, and the bit operations (&, >>>) applied to non-negative ints. */
module JavaInt {

  const INT_MIN: int := -0x8000_0000
  const INT_MAX: int := 0x7FFF_FFFF
  const TWO_32: int := 0x1_0000_0000
  const TWO_64: int := 0x1_0000_0000_0000_0000

  /** The values of a Java `int`. */
  type int32 = x: int | INT_MIN <= x <= INT_MAX

  /** The value a Java `int` expression takes when the exact result is x. */
  function Wrap32(x: int): (r: int32)
    ensures (r - x) % TWO_32 == 0
    ensures INT_MIN <= x <= INT_MAX ==> r == x
  {
    var m := x % TWO_32;
    if m > INT_MAX then m - TWO_32 else m
  }

  const LONG_MIN: int := -0x8000_0000_0000_0000
  const LONG_MAX: int := 0x7FFF_FFFF_FFFF_FFFF

  /** The values of a Java `long`. */
  type int64 = x: int | LONG_MIN <= x <= LONG_MAX

  /** Java's `a + b` on ints: the exact sum, moved by 2^32 when it leaves the int range. */
  function IntAdd(a: int32, b: int32): (r: int32)
    ensures r == a + b || r == a + b - TWO_32 || r == a + b + TWO_32
  {
    var s := a + b;
    if s > INT_MAX then s - TWO_32 else if s < INT_MIN then s + TWO_32 else s
  }

  /** Java's `a - b` on ints. */
  function IntSub(a: int32, b: int32): (r: int32)
    ensures r == a - b || r == a - b - TWO_32 || r == a - b + TWO_32
  {
    var s := a - b;
    if s > INT_MAX then s - TWO_32 else if s < INT_MIN then s + TWO_32 else s
  }

  /** `a & 0xffffffffL`: the int read as an unsigned 32-bit number. */
  function Unsigned(a: int32): (r: nat)
    ensures r < TWO_32 && (r == a || r == a + TWO_32)
  {
    if a < 0 then a + TWO_32 else a
  }

  /** `(int) u` for an unsigned 32-bit pattern u: the low 32 bits read as a signed int. */
  function Signed(u: int): (r: int32)
    requires 0 <= u < TWO_32
    ensures Unsigned(r) == u
  {
    if u > INT_MAX then u - TWO_32 else u
  }

  /** Wrapping addition seen through the unsigned reading: the sum modulo 2^32. */
  lemma UnsignedIntAdd(a: int32, b: int32)
    ensures Unsigned(a) + Unsigned(b) < TWO_32 ==> Unsigned(IntAdd(a, b)) == Unsigned(a) + Unsigned(b)
    ensures Unsigned(a) + Unsigned(b) >= TWO_32 ==> Unsigned(IntAdd(a, b)) == Unsigned(a) + Unsigned(b) - TWO_32
  {
  }

  /** Wrapping subtraction seen through the unsigned reading. */
  lemma UnsignedIntSub(a: int32, b: int32)
    ensures Unsigned(a) >= Unsigned(b) ==> Unsigned(IntSub(a, b)) == Unsigned(a) - Unsigned(b)
    ensures Unsigned(a) < Unsigned(b) ==> Unsigned(IntSub(a, b)) == Unsigned(a) - Unsigned(b) + TWO_32
  {
  }

  /** Java's `a / b` on ints: the quotient truncated toward zero; INT_MIN / -1 wraps. */
  function IntDiv(a: int32, b: int32): (r: int32)
    requires b != 0
    ensures 0 <= a && 0 < b ==> r == a / b
    ensures 0 <= a && b < 0 ==> r == -(a as int / -(b as int))
  {
    var ua: nat := if a < 0 then -(a as int) else a;
    var ub: nat := if b < 0 then -(b as int) else b;
    QuotientBound(ua, ub);
    var q := if (a < 0) == (b < 0) then ua / ub else -(ua / ub);
    if q > INT_MAX then INT_MIN else q
  }

  /** A quotient by a positive divisor lies between 0 and the dividend. */
  lemma QuotientBound(x: nat, d: nat)
    requires d >= 1
    ensures 0 <= x / d <= x
  {
    var q := x / d;
    assert x == d * q + x % d;
    MulAtLeast(d, q);
  }

  lemma {:induction false} MulAtLeast(d: nat, q: nat)
    requires d >= 1
    ensures d * q >= q
  {
    if d > 1 {
      MulAtLeast(d - 1, q);
      assert d * q == (d - 1) * q + q;
    }
  }

  /** A long read as an unsigned 64-bit number. */
  function UnsignedLong(d: int64): (r: nat)
    ensures r < TWO_64 && (r == d || r == d + TWO_64)
  {
    if d < 0 then d + TWO_64 else d
  }

  /** The int whose bit pattern is w (two's complement). */
  function FromBits(w: bv32): (r: int32)
  {
    Signed(w as int)
  }

  /** The bit pattern of an int (two's complement). */
  function ToBits(a: int32): (r: bv32)
  {
    Unsigned(a) as bv32
  }

  /** Reading a bit pattern as an int and writing it back gives the same bits. */
  lemma BitsRoundTrip(w: bv32)
    ensures ToBits(FromBits(w)) == w
  {
    assert Unsigned(FromBits(w)) == w as int;
  }

  /** The value a Java `long` expression takes when the exact result is x, for results
      within one wrap of the long range. */
  function Wrap64(x: int): (r: int64)
    requires LONG_MIN - TWO_64 <= x <= LONG_MAX + TWO_64
    ensures r == x || r == x - TWO_64 || r == x + TWO_64
    ensures LONG_MIN <= x <= LONG_MAX ==> r == x
  {
    if x > LONG_MAX then x - TWO_64 else if x < LONG_MIN then x + TWO_64 else x
  }

  /** The long whose bits are the low 64 bits of x: Java's wrapping long arithmetic. */
  function ToLong(x: int): (r: int64)
    ensures (x - r) % TWO_64 == 0
    ensures LONG_MIN <= x <= LONG_MAX ==> r == x
  {
    var m := x % TWO_64;
    if m > LONG_MAX then m - TWO_64 else m
  }
}
