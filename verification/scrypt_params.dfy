/** The argument checks of SCrypt.generate and the choice of how SMix splits its memory into
    chunks (SCrypt.isPowerOf2 and the exponent loop of MFcrypt). */
module ScryptParams {
  import opened Errors
  import opened JavaInt
  import opened Bits

  /** isPowerOf2(x): `(x & (x - 1)) == 0`; generate calls it only with x > 1. */
  function IsPowerOf2(x: int32): (b: bool)
    requires x > 0
    ensures b <==> PowerOfTwo(x)
  {
    ClearLowestBit(x);
    BitAnd(x, x - 1) == 0
  }

  /** What the checks of generate evidently promise, in exact arithmetic: N a power of two
      above 1, below 65536 when r is 1, r at least 1, 1 <= p <= INT_MAX / (128 * r * 8) and
      a positive key length. */
  predicate ParamsOk(n: int, r: int, p: int, dkLen: int) {
    n > 1 && PowerOfTwo(n) && !(r == 1 && n >= 65536) && r >= 1
    && 1 <= p <= INT_MAX / (128 * r * 8) && dkLen >= 1
  }

  /** The checks of generate as written: the bound on p is computed in int arithmetic, where
      128 * r * 8 wraps for r >= 2^21 and is zero for r = 2^22. */
  function Check(passphrase: Option<seq<bv8>>, salt: Option<seq<bv8>>, n: int32, r: int32, p: int32, dkLen: int32): (o: Outcome)
    ensures o.Pass? ==> passphrase.Some? && salt.Some? && n > 1 && PowerOfTwo(n) && !(r == 1 && n >= 65536)
                        && r >= 1 && p >= 1 && dkLen >= 1
    ensures o.Fail? ==> o.error == IllegalArgument || (o.error == Arithmetic && r >= 0x20_0000)
    ensures o.Pass? && r < 0x20_0000 ==> 128 * r * p * 8 <= INT_MAX
  {
    if passphrase.None? || salt.None? then Fail(IllegalArgument)
    else if n <= 1 || !IsPowerOf2(n) then Fail(IllegalArgument)
    else if r == 1 && n >= 65536 then Fail(IllegalArgument)
    else if r < 1 then Fail(IllegalArgument)
    else
      var cost := Wrap32(Wrap32(128 * r) * 8);
      if cost == 0 then Fail(Arithmetic)
      else
        var maxParallel := IntDiv(INT_MAX, cost);
        if p < 1 || p > maxParallel then Fail(IllegalArgument)
        else
          assert r < 0x20_0000 ==> 128 * r * p * 8 <= INT_MAX by {
            if r < 0x20_0000 { CostBound(r, p, cost); }
          }
          if dkLen < 1 then Fail(IllegalArgument) else Pass
  }

  /** Below the wrap, a p within INT_MAX / (128 * r * 8) keeps 128 * r * p * 8 within an int. */
  lemma CostBound(r: int32, p: int32, cost: int32)
    requires 1 <= r < 0x20_0000 && cost == Wrap32(Wrap32(128 * r) * 8) && 1 <= p <= IntDiv(INT_MAX, cost)
    ensures 128 * r * p * 8 <= INT_MAX
  {
    assert Wrap32(128 * r) == 128 * r;
    assert cost == 128 * r * 8;
    DivBound(p, cost, INT_MAX);
    assert 128 * r * p * 8 == p * cost;
  }

  /** The checks as intended: the bound on p in exact arithmetic. */
  function CheckIntended(passphrase: Option<seq<bv8>>, salt: Option<seq<bv8>>, n: int32, r: int32, p: int32, dkLen: int32): (o: Outcome)
    ensures o.Pass? <==> passphrase.Some? && salt.Some? && ParamsOk(n, r, p, dkLen)
    ensures o.Fail? ==> o.error == IllegalArgument
  {
    if passphrase.None? || salt.None? then Fail(IllegalArgument)
    else if n <= 1 || !IsPowerOf2(n) then Fail(IllegalArgument)
    else if r == 1 && n >= 65536 then Fail(IllegalArgument)
    else if r < 1 then Fail(IllegalArgument)
    else if p < 1 || p > INT_MAX / (128 * r * 8) then Fail(IllegalArgument)
    else if dkLen < 1 then Fail(IllegalArgument)
    else Pass
  }

  /** While 128 * r * 8 fits an int, the checks as written are the intended ones. */
  lemma CheckExactBelowOverflow(passphrase: Option<seq<bv8>>, salt: Option<seq<bv8>>, n: int32, r: int32, p: int32, dkLen: int32)
    requires r < 0x20_0000
    ensures Check(passphrase, salt, n, r, p, dkLen) == CheckIntended(passphrase, salt, n, r, p, dkLen)
  {
    if r >= 1 {
      assert Wrap32(128 * r) == 128 * r;
      assert Wrap32(Wrap32(128 * r) * 8) == 128 * r * 8;
    }
  }

  /** Under the intended checks, MFcrypt's byte count p * (r * 128), even times 8, fits an
      int, so its int products are exact. */
  lemma AcceptedSizesFit(n: int, r: int, p: int, dkLen: int)
    requires ParamsOk(n, r, p, dkLen)
    ensures p * (r * 128) * 8 <= INT_MAX
  {
    var c := 128 * r * 8;
    DivBound(p, c, INT_MAX);
    assert p * (r * 128) * 8 == p * c;
  }

  /** The sizes MFcrypt and SMix compute are exact: r * 128 and p * (r * 128) fit an int, so
      PBKDF2 is asked for p lanes of 128 r bytes and every array holds what it should. */
  predicate SizesOk(n: int, r: int, p: int, dkLen: int) {
    n > 1 && PowerOfTwo(n) && r >= 1 && p >= 1 && dkLen >= 1 && 128 * r * p <= INT_MAX
  }

  /** Parameters the intended checks accept have exact sizes. */
  lemma AcceptedSizesOk(n: int, r: int, p: int, dkLen: int)
    requires ParamsOk(n, r, p, dkLen)
    ensures SizesOk(n, r, p, dkLen)
  {
    AcceptedSizesFit(n, r, p, dkLen);
    assert p * (r * 128) == 128 * r * p;
  }

  /** p <= M / c bounds the product p * c by M. */
  lemma DivBound(p: nat, c: int, m: nat)
    requires c > 0 && p <= m / c
    ensures p * c <= m
  {
    MulMonotone(c, p, m / c);
  }

  /** With r = 2^22 + 1, 128 * r * 8 wraps to 1024, so p = 4 is accepted although the exact
      bound is 0; MFcrypt's p * (r * 128) then wraps to a negative int. */
  lemma MaxParallelWraps()
    ensures Check(Some([]), Some([]), 2, 0x40_0001, 4, 1) == Pass
    ensures !ParamsOk(2, 0x40_0001, 4, 1)
    ensures CheckIntended(Some([]), Some([]), 2, 0x40_0001, 4, 1) == Fail(IllegalArgument)
    ensures Wrap32(4 * Wrap32(0x40_0001 * 128)) < 0
  {
    assert IsPowerOf2(2);
    assert Wrap32(128 * 0x40_0001) == 0x2000_0080;
    assert Wrap32(0x2000_0080 * 8) == 1024;
  }

  /** Once the checks pass, MFcrypt's sizes are exact whenever r * 128 * p fits an int. */
  lemma PassedSizesOk(passphrase: Option<seq<bv8>>, salt: Option<seq<bv8>>, n: int32, r: int32, p: int32, dkLen: int32)
    requires Check(passphrase, salt, n, r, p, dkLen).Pass? && 128 * r * p <= INT_MAX
    ensures SizesOk(n, r, p, dkLen)
  {
  }

  /** N = 2^22 with r = 512 passes the checks, N * r = 2^31 wraps to INT_MIN, and the loop
      as written stops at once with d = 0. */
  lemma WrappedTotalAt2To22(passphrase: seq<bv8>, salt: seq<bv8>)
    ensures PowerOfTwo(0x40_0000) && TrailingZeros(0x40_0000) == 22
    ensures ParamsOk(0x40_0000, 512, 1, 1)
    ensures Check(Some(passphrase), Some(salt), 0x40_0000, 512, 1, 1) == Pass
    ensures ChunkExponent(0x40_0000, 512) == 0
  {
    assert Pow2(11) == 2048;
    Pow2Add(11, 11);
    Pow2IsPowerOfTwo(22);
    TrailingZerosOfPow2(22);
    assert IsPowerOf2(0x40_0000);
    CheckExactBelowOverflow(Some(passphrase), Some(salt), 0x40_0000, 512, 1, 1);
    assert Wrap32(0x40_0000 * 512) == INT_MIN;
    assert ChunkLoop(0x40_0000, 0, INT_MIN).0 == 0;
  }

  /** With r = 2^22 + 1 the wrapped bound passes p = 1 as well; there r * 128 * p = 2^29 + 128
      fits an int, so MFcrypt's sizes are exact, and N = 2 keeps the loop at d = 0. */
  lemma WrappedPassExact(pass: seq<bv8>, salt: seq<bv8>)
    ensures Check(Some(pass), Some(salt), 2, 0x40_0001, 1, 1) == Pass
    ensures !ParamsOk(2, 0x40_0001, 1, 1) && SizesOk(2, 0x40_0001, 1, 1)
    ensures ChunkExponent(2, 0x40_0001) == 0
  {
    assert IsPowerOf2(2);
    assert Wrap32(128 * 0x40_0001) == 0x2000_0080;
    assert Wrap32(0x2000_0080 * 8) == 1024;
    assert ChunkLoop(2, 0, Wrap32(2 * 0x40_0001)).0 == 0;
  }

  /** With r = 2^22, 128 * r * 8 wraps to 0 and the division throws ArithmeticException
      instead of the IllegalArgumentException for p. */
  lemma MaxParallelDividesByZero()
    ensures Check(Some([]), Some([]), 2, 0x40_0000, 1, 1) == Fail(Arithmetic)
    ensures CheckIntended(Some([]), Some([]), 2, 0x40_0000, 1, 1) == Fail(IllegalArgument)
  {
    assert IsPowerOf2(2);
    assert Wrap32(128 * 0x40_0000) == 0x2000_0000;
    assert Wrap32(0x2000_0000 * 8) == 0;
  }

  /** Accepted parameters have r below 2^21: p >= 1 needs 128 * r * 8 <= INT_MAX. */
  lemma AcceptedRBelow2To21(n: int, r: int, p: int, dkLen: int)
    requires ParamsOk(n, r, p, dkLen)
    ensures r < 0x20_0000
  {
  }

  /** For 2^21 <= r < 2^22 the int divisor 128 * r * 8 wraps negative, the bound on p is at
      most 0, and generate refuses every call with IllegalArgumentException. */
  lemma CheckRefusesUpTo2To22(passphrase: Option<seq<bv8>>, salt: Option<seq<bv8>>, n: int32, r: int32, p: int32, dkLen: int32)
    requires 0x20_0000 <= r < 0x40_0000
    ensures Check(passphrase, salt, n, r, p, dkLen) == Fail(IllegalArgument)
  {
    assert Wrap32(128 * r) == 128 * r;
    var x := 128 * r * 8;
    assert INT_MAX < x < TWO_32 && x % TWO_32 == x;
    assert Wrap32(Wrap32(128 * r) * 8) == x - TWO_32;
  }

  /** At r = 2^22 the divisor wraps to 0: once the buffers and N pass, generate throws
      ArithmeticException. */
  lemma CheckDividesByZeroAt2To22(passphrase: Option<seq<bv8>>, salt: Option<seq<bv8>>, n: int32, p: int32, dkLen: int32)
    requires passphrase.Some? && salt.Some? && n > 1 && PowerOfTwo(n)
    ensures Check(passphrase, salt, n, 0x40_0000, p, dkLen) == Fail(Arithmetic)
  {
    assert Wrap32(128 * 0x40_0000) == 0x2000_0000;
    assert Wrap32(0x2000_0000 * 8) == 0;
  }

  /** The checks as written let through parameters the intended ones refuse only for
      r > 2^22, where the wrapped divisor is positive again. */
  lemma WrappedPassAbove2To22(passphrase: Option<seq<bv8>>, salt: Option<seq<bv8>>, n: int32, r: int32, p: int32, dkLen: int32)
    requires Check(passphrase, salt, n, r, p, dkLen).Pass? && !ParamsOk(n, r, p, dkLen)
    ensures r > 0x40_0000
  {
    if r < 0x20_0000 {
      CheckExactBelowOverflow(passphrase, salt, n, r, p, dkLen);
    } else if r < 0x40_0000 {
      CheckRefusesUpTo2To22(passphrase, salt, n, r, p, dkLen);
    } else if r == 0x40_0000 {
      CheckDividesByZeroAt2To22(passphrase, salt, n, p, dkLen);
    }
  }

  /** Away from the wrapped acceptance above 2^22, the checks as written pass exactly when
      the intended ones do. */
  lemma CheckAgreesUnlessWrapped(passphrase: Option<seq<bv8>>, salt: Option<seq<bv8>>, n: int32, r: int32, p: int32, dkLen: int32)
    requires r > 0x40_0000 && Check(passphrase, salt, n, r, p, dkLen).Pass? ==> ParamsOk(n, r, p, dkLen)
    ensures Check(passphrase, salt, n, r, p, dkLen).Pass? <==> CheckIntended(passphrase, salt, n, r, p, dkLen).Pass?
  {
    if Check(passphrase, salt, n, r, p, dkLen).Pass? && !ParamsOk(n, r, p, dkLen) {
      WrappedPassAbove2To22(passphrase, salt, n, r, p, dkLen);
    }
    if CheckIntended(passphrase, salt, n, r, p, dkLen).Pass? {
      AcceptedRBelow2To21(n, r, p, dkLen);
      CheckExactBelowOverflow(passphrase, salt, n, r, p, dkLen);
    }
  }

  /** `total >>>= 1`. */
  function Halve(t: int32): (h: int32)
    ensures 0 <= h && (t >= 0 ==> h == t / 2)
  {
    Unsigned(t) / 2
  }

  /** total after e halvings. */
  function Halved(t: int32, e: nat): int32
    decreases e
  {
    if e == 0 then t else Halved(Halve(t), e - 1)
  }

  /** The loop of MFcrypt as written goes on past d + k: N - (d + k) > 2 and total, halved k
      times, still exceeds 1024. */
  predicate GoesOn(n: int, d: int, total: int32, k: nat) {
    n - (d + k) > 2 && Halved(total, k) > 1024
  }

  /** The exponent loop of MFcrypt as written, from d on: it stops once N - d <= 2 or
      total <= 1024. Returns d and total. */
  function ChunkLoop(n: int32, d: int32, total: int32): (r: (int32, int32))
    requires 0 <= d <= n
    ensures d <= r.0 <= n && r.1 == Halved(total, r.0 - d)
    ensures n - r.0 <= 2 || r.1 <= 1024
    ensures forall k: nat :: k < r.0 - d ==> GoesOn(n, d, total, k)
    decreases n - d
  {
    if n - d > 2 && total > 1024 then
      var next := ChunkLoop(n, d + 1, Halve(total));
      forall k: nat | k < next.0 - d
        ensures GoesOn(n, d, total, k)
      {
        if k > 0 {
          assert GoesOn(n, d + 1, Halve(total), k - 1);
        }
      }
      next
    else (d, total)
  }

  /** d of MFcrypt as written: total starts as the int product N * r. */
  function ChunkExponent(n: int32, r: int32): (d: int32)
    requires n > 1
    ensures 0 <= d <= n && d <= 21
    ensures n - d <= 2 || Halved(Wrap32(n * r), d) <= 1024
    ensures forall k: nat :: k < d ==> GoesOn(n, 0, Wrap32(n * r), k)
  {
    ChunkLoopBound(n, 0, Wrap32(n * r));
    ChunkLoop(n, 0, Wrap32(n * r)).0
  }

  /** total * 2^d never exceeds INT_MAX in the loop, and each pass needs total > 1024 = 2^10,
      so d stops at 21 at the latest. */
  lemma {:induction false} ChunkLoopBound(n: int32, d: int32, total: int32)
    requires 0 <= d <= n && d <= 21 && total * Pow2(d) <= INT_MAX
    ensures ChunkLoop(n, d, total).0 <= 21
    decreases n - d
  {
    if n - d > 2 && total > 1024 {
      PassBelow21(d, total);
      HalveKeepsProduct(total, d);
      ChunkLoopBound(n, d + 1, Halve(total));
    }
  }

  /** A pass of the loop at d needs total > 2^10 with total * 2^d <= INT_MAX < 2^31. */
  lemma PassBelow21(d: nat, total: int)
    requires total > 1024 && total * Pow2(d) <= INT_MAX
    ensures d < 21
  {
    assert Pow2(10) == 1024;
    Pow2Add(10, 21);
    if d >= 21 {
      Pow2Monotone(21, d);
    }
  }

  lemma HalveKeepsProduct(total: int, d: nat)
    requires total >= 0
    ensures (total / 2) * Pow2(d + 1) <= total * Pow2(d)
  {
    var h := total / 2;
    assert Pow2(d + 1) == 2 * Pow2(d);
    MulMonotone(Pow2(d), 2 * h, total);
    assert h * (2 * Pow2(d)) == (2 * h) * Pow2(d);
  }

  /** The loop as intended by its comment (chunks of at most 32 KiB and of at least two
      blocks): the first test compares log2 N, not N, with d, and total is N * r >>> d in
      exact arithmetic, 2^(log2 N - d) * r. */
  function ChunkLoopIntended(powN: nat, d: nat, r: nat): (e: nat)
    requires 1 <= powN && d < powN
    ensures d <= e < powN
    ensures !GoesOnIntended(powN, e, r)
    ensures forall k :: d <= k < e ==> GoesOnIntended(powN, k, r)
    decreases powN - d
  {
    if GoesOnIntended(powN, d, r) then ChunkLoopIntended(powN, d + 1, r) else d
  }

  /** The intended loop goes on past d: at least two blocks per chunk remain after halving,
      and a chunk of 2^(log2 N - d) blocks would hold more than 1024 r ints. */
  predicate GoesOnIntended(powN: nat, d: nat, r: nat) {
    d < powN && powN - d > 1 && Pow2(powN - d) * r > 1024
  }

  /** d as intended: 2^d chunks of N >>> d >= 2 blocks each, a chunk holding at most 1024 r
      ints unless it is down to two blocks. */
  function ChunkExponentIntended(n: int32, r: int32): (d: int32)
    requires n > 1 && PowerOfTwo(n) && r >= 1
    ensures 0 <= d < TrailingZeros(n)
    ensures TrailingZeros(n) - d <= 1 || Pow2(TrailingZeros(n) - d) * r <= 1024
    ensures forall k :: 0 <= k < d ==> GoesOnIntended(TrailingZeros(n), k, r)
  {
    PowerOfTwoIsPow2(n);
    PowerOfTwoExponent(n);
    ChunkLoopIntended(TrailingZeros(n), 0, r)
  }

  /** 2^k exceeds k. */
  lemma {:induction false} Pow2Exceeds(k: nat)
    ensures Pow2(k) >= k + 1
  {
    if k > 0 {
      Pow2Exceeds(k - 1);
    }
  }

  /** From d on, with total = 2^(log2 N - d) * r no larger than 1024 * 2^(log2 N - 1 - d),
      the total test stops both loops at the same d: the first test of either loop never
      decides. */
  lemma {:induction false} ChunkLoopsAgree(n: int32, powN: nat, d: nat, r: nat, total: int32)
    requires 1 <= powN && n == Pow2(powN) && d < powN && d < n
    requires total == Pow2(powN - d) * r && total <= 1024 * Pow2(powN - 1 - d)
    ensures ChunkLoop(n, d, total).0 == ChunkLoopIntended(powN, d, r)
    decreases powN - d
  {
    if total > 1024 {
      LoopsStep(n, powN, d, r, total);
      ChunkLoopsAgree(n, powN, d + 1, r, Halve(total));
    }
  }

  /** One pass of both loops from d: both go on, and the halved total keeps the bound. */
  lemma LoopsStep(n: int32, powN: nat, d: nat, r: nat, total: int32)
    requires 1 <= powN && n == Pow2(powN) && d < powN && d < n
    requires total == Pow2(powN - d) * r && 1024 < total <= 1024 * Pow2(powN - 1 - d)
    ensures d + 1 < powN && d + 1 < n && n - d > 2 && GoesOnIntended(powN, d, r)
    ensures Halve(total) == Pow2(powN - (d + 1)) * r
    ensures Halve(total) <= 1024 * Pow2(powN - 1 - (d + 1))
  {
    assert powN - 1 - d > 0;
    Pow2Exceeds(powN);
    assert Pow2(powN - d) == 2 * Pow2(powN - (d + 1));
    assert Pow2(powN - 1 - d) == 2 * Pow2(powN - 1 - (d + 1));
  }

  /** For 1 <= r <= 512 with N * r within int range, the loop as written picks the intended
      d: N * r halved log2 N - 1 times is 2r <= 1024. */
  lemma ChunkExponentsAgree(n: int32, r: int32)
    requires n > 1 && PowerOfTwo(n) && 1 <= r <= 512 && n * r <= INT_MAX
    ensures ChunkExponent(n, r) == ChunkExponentIntended(n, r)
  {
    LoopsStart(n, r);
    ChunkLoopsAgree(n, TrailingZeros(n), 0, r, n * r);
  }

  /** Both loops start from d = 0 with total = N * r = 2^(log2 N) * r within the bound. */
  lemma LoopsStart(n: int32, r: int32)
    requires n > 1 && PowerOfTwo(n) && 1 <= r <= 512 && n * r <= INT_MAX
    ensures 1 <= TrailingZeros(n) && n == Pow2(TrailingZeros(n))
    ensures n * r == Pow2(TrailingZeros(n) - 0) * r && n * r <= 1024 * Pow2(TrailingZeros(n) - 1 - 0)
  {
    PowerOfTwoIsPow2(n);
    PowerOfTwoExponent(n);
    StartFits(n, TrailingZeros(n), r);
  }

  lemma StartFits(n: nat, powN: nat, r: nat)
    requires powN >= 1 && n == Pow2(powN) && r <= 512
    ensures n * r <= 1024 * Pow2(powN - 1 - 0)
  {
    assert n == 2 * Pow2(powN - 1);
    MulMonotone(Pow2(powN - 1), 2 * r, 1024);
  }

  /** For N = 4 and r = 1024 (accepted by generate) the loop as written stops at d = 2,
      giving chunks of N >>> 2 = 1 block; the intended loop stops at d = 1, chunks of 2. */
  lemma ChunkOfOneBlock()
    ensures Check(Some([]), Some([]), 4, 1024, 1, 1) == Pass
    ensures ChunkExponent(4, 1024) == 2 && ShiftRight(4, 2) == 1
    ensures ChunkExponentIntended(4, 1024) == 1 && ShiftRight(4, 1) == 2
  {
    FourByKiloAccepted();
    FourByKiloAsWritten();
    FourByKiloIntended();
  }

  lemma FourByKiloAccepted()
    ensures Check(Some([]), Some([]), 4, 1024, 1, 1) == Pass
  {
    assert IsPowerOf2(4);
    assert Wrap32(128 * 1024) == 128 * 1024;
    assert Wrap32(128 * 1024 * 8) == 128 * 1024 * 8;
  }

  lemma FourByKiloAsWritten()
    ensures ChunkExponent(4, 1024) == 2 && ShiftRight(4, 2) == 1
  {
    FourByKiloLoop();
    ShiftsOfFour();
  }

  lemma FourByKiloLoop()
    ensures ChunkExponent(4, 1024) == 2
  {
    var t := Wrap32(4 * 1024);
    assert t == 4096;
    assert Halve(4096) == 2048 && Halve(2048) == 1024;
    assert ChunkLoop(4, 2, 1024).0 == 2;
    assert ChunkLoop(4, 1, 2048).0 == 2;
    assert ChunkLoop(4, 0, t).0 == 2;
  }

  lemma ShiftsOfFour()
    ensures ShiftRight(4, 2) == 1 && ShiftRight(4, 1) == 2
  {
    assert Pow2(1) == 2 && Pow2(2) == 4;
  }

  lemma FourByKiloIntended()
    ensures ChunkExponentIntended(4, 1024) == 1 && ShiftRight(4, 1) == 2
  {
    ShiftsOfFour();
    assert IsPowerOf2(4);
    assert TrailingZeros(4) == 2;
    assert Pow2(2) == 4;
    assert ChunkLoopIntended(2, 1, 1024) == 1;
    assert ChunkLoopIntended(2, 0, 1024) == 1;
  }
}
