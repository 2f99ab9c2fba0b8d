/** Bit operations on non-negative ints (`&`, `>>>`, `<<` of 1) and powers of two, stated over
    unbounded naturals: for non-negative int operands Java's results are these. */
module Bits {
  import opened JavaInt

  function Pow2(k: nat): (r: nat)
    ensures r >= 1
  {
    if k == 0 then 1 else 2 * Pow2(k - 1)
  }

  /** x is 2^k for some k. */
  predicate PowerOfTwo(x: int)
    decreases if x < 0 then 0 else x
  {
    x == 1 || (x >= 2 && x % 2 == 0 && PowerOfTwo(x / 2))
  }

  /** `a & b` on non-negative ints, bit by bit from the least significant. */
  function BitAnd(a: nat, b: nat): (r: nat)
    ensures r <= a && r <= b
  {
    if a == 0 || b == 0 then 0
    else 2 * BitAnd(a / 2, b / 2) + (if a % 2 == 1 && b % 2 == 1 then 1 else 0)
  }

  /** Integer.numberOfTrailingZeros for a positive int. */
  function TrailingZeros(x: nat): (k: nat)
    requires x > 0
    ensures k < x
  {
    if x % 2 == 1 then 0 else 1 + TrailingZeros(x / 2)
  }

  /** `x >>> k` for a non-negative int x: the shift distance is taken modulo 32. */
  function ShiftRight(x: nat, k: int): (r: nat)
    ensures r <= x
  {
    var p := Pow2(k % 32);
    DivAtMost(x, p);
    x / p
  }

  lemma DivAtMost(x: nat, p: nat)
    requires p >= 1
    ensures 0 <= x / p <= x
  {
    var q := x / p;
    assert q * p + x % p == x;
    MulMonotone(q, 1, p);
  }

  /** `1 << k` for 0 <= k < 31. */
  function ShiftOne(k: nat): (r: int32)
    requires k < 31
    ensures r == Pow2(k) && r >= 1
  {
    Pow2Bound(k);
    Pow2(k)
  }

  lemma {:induction false} Pow2Bound(k: nat)
    requires k < 31
    ensures Pow2(k) <= INT_MAX / 2 + 1
  {
    Pow2Monotone(k, 30);
    assert Pow2(10) == 1024;
    Pow2Add(10, 10);
    Pow2Add(20, 10);
  }

  lemma {:induction false} Pow2IsPowerOfTwo(k: nat)
    ensures PowerOfTwo(Pow2(k))
  {
    if k > 0 {
      Pow2IsPowerOfTwo(k - 1);
      assert Pow2(k) / 2 == Pow2(k - 1);
    }
  }

  /** A power of two is 2 to the number of its trailing zeros. */
  lemma {:induction false} PowerOfTwoIsPow2(x: int)
    requires PowerOfTwo(x)
    ensures x > 0 && Pow2(TrailingZeros(x)) == x
    decreases if x < 0 then 0 else x
  {
    if x != 1 {
      PowerOfTwoIsPow2(x / 2);
    }
  }

  lemma {:induction false} Pow2Add(a: nat, b: nat)
    ensures Pow2(a + b) == Pow2(a) * Pow2(b)
  {
    if a > 0 {
      Pow2Add(a - 1, b);
    }
  }

  lemma {:induction false} Pow2Monotone(a: nat, b: nat)
    requires a <= b
    ensures Pow2(a) <= Pow2(b)
  {
    if a < b {
      Pow2Monotone(a, b - 1);
    }
  }

  lemma {:induction false} BitAndSelf(a: nat)
    ensures BitAnd(a, a) == a
  {
    if a > 0 {
      BitAndSelf(a / 2);
    }
  }

  /** The test `(x & (x - 1)) == 0` recognises the powers of two among the positive ints. */
  lemma {:induction false} ClearLowestBit(x: nat)
    requires x > 0
    ensures BitAnd(x, x - 1) == 0 <==> PowerOfTwo(x)
  {
    if x == 1 {
    } else if x % 2 == 0 {
      ClearLowestBit(x / 2);
      assert (x - 1) / 2 == x / 2 - 1 && (x - 1) % 2 == 1;
      assert BitAnd(x, x - 1) == 2 * BitAnd(x / 2, x / 2 - 1);
    } else {
      BitAndSelf(x / 2);
      assert (x - 1) / 2 == x / 2 && (x - 1) % 2 == 0;
      assert BitAnd(x, x - 1) == 2 * (x / 2);
    }
  }

  /** Masking with 2^k - 1 keeps the remainder modulo 2^k. */
  lemma {:induction false} MaskIsRemainder(x: nat, k: nat)
    ensures BitAnd(x, Pow2(k) - 1) == x % Pow2(k)
  {
    var p := Pow2(k);
    if k == 0 {
      assert p == 1 && BitAnd(x, 0) == 0;
    } else if x == 0 {
      assert BitAnd(0, p - 1) == 0 && 0 % p == 0;
    } else {
      MaskIsRemainder(x / 2, k - 1);
      MaskStep(x, Pow2(k - 1), p);
    }
  }

  /** The mask 2m - 1 keeps x mod 2m when the mask m - 1 keeps x / 2 mod m. */
  lemma MaskStep(x: nat, m: nat, p: nat)
    requires x > 0 && m > 0 && p == 2 * m && BitAnd(x / 2, m - 1) == (x / 2) % m
    ensures BitAnd(x, p - 1) == x % p
  {
    assert (p - 1) / 2 == m - 1 && (p - 1) % 2 == 1;
    BitAndOddStep(x, p - 1);
    DivMod2(x, m, p);
  }

  /** One step of `&` with an odd right operand. */
  lemma BitAndOddStep(a: nat, b: nat)
    requires a > 0 && b % 2 == 1
    ensures BitAnd(a, b) == 2 * BitAnd(a / 2, b / 2) + a % 2
  {
  }

  /** x mod 2m from x / 2 mod m and the last bit. */
  lemma DivMod2(x: nat, m: nat, p: nat)
    requires m > 0 && p == 2 * m
    ensures x % p == 2 * ((x / 2) % m) + x % 2
  {
    var q := (x / 2) / m;
    var r := (x / 2) % m;
    assert x / 2 == m * q + r;
    assert x == p * q + (2 * r + x % 2);
    ModUnique(x, p, q, 2 * r + x % 2);
  }

  /** The remainder and quotient are the r and q of any x == d * q + r with 0 <= r < d. */
  lemma ModUnique(x: int, d: int, q: int, r: int)
    requires d > 0 && 0 <= r < d && x == d * q + r
    ensures x % d == r && x / d == q
  {
    var q', r' := x / d, x % d;
    assert x == d * q' + r';
    if q' < q {
      MulStep(d, q', q);
    } else if q < q' {
      MulStep(d, q, q');
    }
  }

  lemma {:induction false} MulStep(d: int, a: int, b: int)
    requires d > 0 && a < b
    ensures d * a + d <= d * b
    decreases b - a
  {
    if a + 1 < b {
      MulStep(d, a, b - 1);
      assert d * b == d * (b - 1) + d;
    } else {
      assert d * b == d * a + d;
    }
  }

  /** Shifting right by k < 32 divides by 2^k. */
  lemma ShiftRightDivides(x: nat, k: nat)
    requires k < 32
    ensures ShiftRight(x, k) == x / Pow2(k)
  {
    assert k % 32 == k;
  }

  lemma {:induction false} TrailingZerosOfPow2(k: nat)
    ensures TrailingZeros(Pow2(k)) == k
  {
    if k > 0 {
      assert Pow2(k) == 2 * Pow2(k - 1);
      TrailingZerosOfPow2(k - 1);
    }
  }

  lemma Pow2Of31()
    ensures Pow2(31) == 0x8000_0000
  {
    assert Pow2(8) == 256;
    Pow2Add(8, 8);
    Pow2Add(16, 8);
    Pow2Add(24, 7);
  }

  /** A power of two that fits an int is at most 2^30. */
  lemma PowerOfTwoExponent(x: int)
    requires PowerOfTwo(x) && x <= INT_MAX
    ensures TrailingZeros(x) <= 30
  {
    PowerOfTwoIsPow2(x);
    if TrailingZeros(x) > 30 {
      Pow2Monotone(31, TrailingZeros(x));
      Pow2Of31();
    }
  }

  /** 2^(a + b) split as 2^b parts of 2^a: the quotient of j < 2^(a + b) by 2^a is below 2^b,
      and 2^(a + b) / 2^a is 2^b. */
  lemma Pow2Split(j: nat, a: nat, b: nat)
    requires j < Pow2(a + b)
    ensures j / Pow2(a) < Pow2(b) && Pow2(a + b) / Pow2(a) == Pow2(b)
  {
    Pow2Add(a, b);
    ModUnique(Pow2(a + b), Pow2(a), Pow2(b), 0);
    var q := j / Pow2(a);
    if q >= Pow2(b) {
      MulMonotone(Pow2(a), Pow2(b), q);
    }
  }

  lemma MulMonotone(d: nat, a: nat, b: nat)
    requires a <= b
    ensures d * a <= d * b
  {
  }
}
