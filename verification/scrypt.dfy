/** The mixing of scrypt (SCrypt.Xor, BlockMix, SMix and MFcrypt) on 32-bit words, with the
    reference definitions of BlockMix and ROMix from sections 4 and 5 of RFC 7914. A block of
    r is 2r sub-blocks of 16 words (128 * r bytes); the flat int arrays of the code are
    sequences of sub-blocks here, since every offset the code uses is a multiple of 16. */
module Scrypt {
  import opened Errors
  import opened JavaInt
  import opened Bits
  import opened SalsaCore
  import opened CUtils
  import ScryptParams

  type Block = seq<State>

  /** The rounds scrypt asks of the Salsa20 core. */
  function SalsaRounds(): int {
    8
  }

  /** Salsa20Engine.salsaCore(8, ...): Salsa20/8. */
  function Salsa8(x: State): State {
    Core(SalsaRounds(), x)
  }

  /** Word-by-word exclusive or of two sub-blocks. */
  function XorState(a: State, b: State): (c: State)
    ensures forall i :: 0 <= i < STATE_WORDS ==> c[i] == a[i] ^ b[i]
  {
    seq(STATE_WORDS, i requires 0 <= i < STATE_WORDS => a[i] ^ b[i])
  }

  /** Sub-block by sub-block exclusive or of two blocks. */
  function XorBlock(a: Block, b: Block): (c: Block)
    requires |a| == |b|
    ensures |c| == |a| && forall s :: 0 <= s < |a| ==> c[s] == XorState(a[s], b[s])
  {
    seq(|a|, s requires 0 <= s < |a| => XorState(a[s], b[s]))
  }

  /** Xor(a, b, bOff, output): output[i] = a[i] ^ b[bOff + i] for every index of output, last
      index first. The caller's output array may be a itself. */
  method Xor(a: seq<bv32>, b: seq<bv32>, bOff: int, output: seq<bv32>) returns (out: seq<bv32>)
    requires |output| <= |a| && 0 <= bOff && bOff + |output| <= |b|
    ensures |out| == |output|
    ensures forall i :: 0 <= i < |out| ==> out[i] == a[i] ^ b[bOff + i]
  {
    out := output;
    var i := |output| - 1;
    while i >= 0
      invariant -1 <= i < |out| && |out| == |output|
      invariant forall k :: i < k < |out| ==> out[k] == a[k] ^ b[bOff + k]
    {
      out := out[i := a[i] ^ b[bOff + i]];
      i := i - 1;
    }
  }

  // ---------------------------------------------------------------- BlockMix

  /** The t-th core output of BlockMix: X starts as the last sub-block and each step is
      X = core(X xor B[t]). The BlockMix functions take the core as a parameter; scrypt's
      is Salsa8. */
  function Chain(core: State -> State, b: Block, t: nat): State
    requires t < |b|
  {
    core(XorState(if t == 0 then b[|b| - 1] else Chain(core, b, t - 1), b[t]))
  }

  /** Where output t goes: even t to the first half, odd t to the second. */
  function Place(t: nat, r: nat): nat {
    if t % 2 == 0 then t / 2 else r + t / 2
  }

  /** Which output lands at sub-block s. */
  function Unplace(s: nat, r: nat): nat {
    if s < r then 2 * s else 2 * (s - r) + 1
  }

  /** The code's update of the output offset moves from Place(t) to Place(t + 1). */
  lemma PlaceStep(t: nat, r: nat)
    requires t < 2 * r
    ensures 16 * r + 16 * t - 16 * Place(t, r) == 16 * Place(t + 1, r)
    ensures (16 * t) / 16 == t && (16 * Place(t, r)) / 16 == Place(t, r)
  {
  }

  lemma PlaceInverse(t: nat, s: nat, r: nat)
    ensures t < 2 * r ==> Place(t, r) < 2 * r && Unplace(Place(t, r), r) == t
    ensures s < 2 * r ==> Unplace(s, r) < 2 * r && Place(Unplace(s, r), r) == s
  {
  }

  /** BlockMix as specified in section 4 of RFC 7914: B' = (Y0, Y2, ..., Y2r-2, Y1, Y3, ...,
      Y2r-1). */
  function BlockMixRfc(core: State -> State, b: Block, r: nat): (y: Block)
    requires |b| == 2 * r && r >= 1
    ensures |y| == 2 * r
  {
    seq(2 * r, s requires 0 <= s < 2 * r => (PlaceInverse(0, s, r); Chain(core, b, Unplace(s, r))))
  }

  /** The loop of BlockMix from pass t on: bOff = 16t, X1 holds the previous output, and each
      pass writes X1 at yOff and sets yOff = halfLen + bOff - yOff. The sub-blocks that the
      remaining passes write end as in RFC 7914; the others keep their contents. */
  function MixLoop(core: State -> State, b: Block, r: nat, t: nat, x1: State, y: Block, bOff: int, yOff: int): (res: Block)
    requires r >= 1 && |b| == 2 * r && |y| == 2 * r && t <= 2 * r
    requires bOff == 16 * t && yOff == 16 * Place(t, r)
    requires x1 == if t == 0 then b[2 * r - 1] else Chain(core, b, t - 1)
    ensures |res| == 2 * r
    ensures forall s :: 0 <= s < 2 * r ==> res[s] == if Unplace(s, r) >= t then BlockMixRfc(core, b, r)[s] else y[s]
    decreases 2 * r - t
  {
    if t == 2 * r then y
    else
      var step := Pass(core, b, r, t, x1, y, bOff, yOff);
      var res := MixLoop(core, b, r, t + 1, step.0, step.1, bOff + 16, step.2);
      MixLoopStep(core, b, r, t, res, y, step.1, step.0);
      res
  }

  /** Pass t of the loop: X1 = core(X1 xor B[bOff]) is Chain(t); it is written at yOff,
      which then moves on to Place(t + 1). */
  function Pass(core: State -> State, b: Block, r: nat, t: nat, x1: State, y: Block, bOff: int, yOff: int): (o: (State, Block, int))
    requires r >= 1 && |b| == 2 * r && |y| == 2 * r && t < 2 * r
    requires bOff == 16 * t && yOff == 16 * Place(t, r)
    requires x1 == if t == 0 then b[2 * r - 1] else Chain(core, b, t - 1)
    ensures o.0 == Chain(core, b, t) && o.2 == 16 * Place(t + 1, r)
    ensures Place(t, r) < 2 * r && o.1 == y[Place(t, r) := o.0]
  {
    PlaceInverse(t, 0, r);
    PlaceStep(t, r);
    var next := core(XorState(x1, b[bOff / 16]));
    (next, y[yOff / 16 := next], 16 * r + bOff - yOff)
  }

  /** The pass at t writes Chain(t) to sub-block Place(t) and nothing else, so what the
      later passes leave holds from t on. */
  lemma MixLoopStep(core: State -> State, b: Block, r: nat, t: nat, res: Block, y: Block, y1: Block, c: State)
    requires r >= 1 && |b| == 2 * r && |y| == |res| == 2 * r && t < 2 * r && c == Chain(core, b, t)
    requires Place(t, r) < 2 * r && y1 == y[Place(t, r) := c]
    requires forall s :: 0 <= s < 2 * r ==>
               res[s] == if Unplace(s, r) >= t + 1 then BlockMixRfc(core, b, r)[s] else y1[s]
    ensures forall s :: 0 <= s < 2 * r ==> res[s] == if Unplace(s, r) >= t then BlockMixRfc(core, b, r)[s] else y[s]
  {
    PlaceInverse(t, 0, r);
    forall s | 0 <= s < 2 * r
      ensures res[s] == if Unplace(s, r) >= t then BlockMixRfc(core, b, r)[s] else y[s]
    {
      PlaceInverse(0, s, r);
      if Unplace(s, r) == t {
        assert s == Place(t, r);
        assert BlockMixRfc(core, b, r)[s] == Chain(core, b, t);
      } else if Unplace(s, r) < t {
        assert s != Place(t, r);
      }
    }
  }

  /** BlockMix(B, X1, X2, Y, r): the loop run over all 2r sub-blocks into Y, whose earlier
      contents (here: B) are all overwritten. It is the BlockMix of RFC 7914. */
  function BlockMix(core: State -> State, b: Block, r: nat): (y: Block)
    requires |b| == 2 * r && r >= 1
    ensures y == BlockMixRfc(core, b, r)
  {
    MixLoop(core, b, r, 0, b[2 * r - 1], b, 0, 0)
  }

  // ---------------------------------------------------------------- ROMix

  /** A block function that keeps blocks of w sub-blocks at w sub-blocks. The memory-hard
      loops below take the block function as a parameter; scrypt passes BlockMix. */
  ghost predicate Keeps(mix: Block -> Block, w: nat) {
    forall x :: |x| == w ==> |mix(x)| == w
  }

  /** mix is BlockMix for blocks of 2r sub-blocks: it keeps their size and computes section
      4 of RFC 7914 on them. */
  ghost predicate MixesBlocks(mix: Block -> Block, r: int) {
    r >= 1 ==> Keeps(mix, 2 * r) && forall x :: |x| == 2 * r ==> mix(x) == BlockMixRfc(Salsa8, x, r)
  }

  /** BlockMix for blocks of 2r sub-blocks, as a total function. */
  function Mixer(r: nat): (mix: Block -> Block)
    ensures Keeps(mix, 2 * r)
    ensures MixesBlocks(mix, r)
  {
    x => if r >= 1 && |x| == 2 * r then BlockMix(Salsa8, x, r) else x
  }

  /** mix applied i times: X_i of section 5 of RFC 7914. */
  function Iter(mix: Block -> Block, b: Block, i: nat): (x: Block)
    requires Keeps(mix, |b|)
    ensures |x| == |b|
  {
    if i == 0 then b else mix(Iter(mix, b, i - 1))
  }

  /** Integerify: the first word of the last sub-block, unsigned. */
  function Integerify(x: Block): nat
    requires |x| > 0
  {
    x[|x| - 1][0] as nat
  }

  /** The second loop of ROMix in RFC 7914 run i more times from X, with V_k = Iter(b, k):
      j = Integerify(X) mod N, X = mix(X xor V_j). */
  function MixRef(mix: Block -> Block, b: Block, n: nat, x: Block, i: nat): (y: Block)
    requires |b| > 0 && Keeps(mix, |b|) && |x| == |b| && n > 0
    ensures |y| == |b|
    decreases i
  {
    if i == 0 then x
    else MixRef(mix, b, n, mix(XorBlock(x, Iter(mix, b, Integerify(x) % n))), i - 1)
  }

  /** scryptROMix of section 5 of RFC 7914 over the block function mix. */
  function ROMix(mix: Block -> Block, b: Block, n: nat): (y: Block)
    requires |b| > 0 && Keeps(mix, |b|) && n > 0
    ensures |y| == |b|
  {
    MixRef(mix, b, n, Iter(mix, b, n), n)
  }

  // ---------------------------------------------------------------- SMix

  /** What the fill loops of SMix leave: chunk c holds the bpc blocks X_(c * bpc + i). */
  predicate Stored(mix: Block -> Block, vv: seq<seq<Block>>, b: Block, bpc: nat)
    requires Keeps(mix, |b|)
  {
    (forall c :: 0 <= c < |vv| ==> |vv[c]| == bpc)
    && forall c, i :: 0 <= c < |vv| && 0 <= i < bpc ==> vv[c][i] == Iter(mix, b, c * bpc + i)
  }

  /** The inner fill loop from `i = |v|` on: each pass stores X and mix(X) in the next two
      places of the chunk and advances X twice. A chunk of one block has room for the first
      copy only, and the second throws. */
  function FillPairs(mix: Block -> Block, b: Block, bpc: nat, base: nat, x: Block, v: seq<Block>): (o: Result<(seq<Block>, Block)>)
    requires Keeps(mix, |b|) && |v| % 2 == 0 && |v| <= bpc
    requires x == Iter(mix, b, base + |v|)
    requires forall k :: 0 <= k < |v| ==> v[k] == Iter(mix, b, base + k)
    ensures o.Ok? <==> bpc % 2 == 0
    ensures o.Err? ==> o.error == IndexOutOfBounds
    ensures o.Ok? ==> |o.value.0| == bpc && o.value.1 == Iter(mix, b, base + bpc)
    ensures o.Ok? ==> forall k :: 0 <= k < bpc ==> o.value.0[k] == Iter(mix, b, base + k)
    decreases bpc - |v|
  {
    if |v| >= bpc then Ok((v, x))
    else if |v| + 1 >= bpc then Err(IndexOutOfBounds)
    else
      var y := mix(x);
      FillPairs(mix, b, bpc, base, mix(y), v + [x, y])
  }

  /** The outer fill loop from chunk |vv| on: a new chunk of bpc blocks per pass, continuing
      the iteration of X. */
  function FillChunks(mix: Block -> Block, b: Block, bpc: nat, count: nat, x: Block, vv: seq<seq<Block>>): (o: Result<(seq<seq<Block>>, Block)>)
    requires Keeps(mix, |b|) && |vv| <= count
    requires Stored(mix, vv, b, bpc) && x == Iter(mix, b, |vv| * bpc)
    ensures o.Ok? <==> bpc % 2 == 0 || |vv| == count
    ensures o.Err? ==> o.error == IndexOutOfBounds
    ensures o.Ok? ==> |o.value.0| == count && Stored(mix, o.value.0, b, bpc) && o.value.1 == Iter(mix, b, count * bpc)
    decreases count - |vv|
  {
    if |vv| >= count then Ok((vv, x))
    else
      var filled :- FillPairs(mix, b, bpc, |vv| * bpc, x, []);
      assert (|vv| + 1) * bpc == |vv| * bpc + bpc;
      FillChunks(mix, b, bpc, count, filled.1, vv + [filled.0])
  }

  /** The index arithmetic of the mixing loop: with j = v & (N - 1), chunk j >>> chunkPow and
      place j & chunkMask are the quotient and remainder of v mod N by the chunk size. */
  lemma ChunkCoordinates(v: nat, powN: nat, chunkPow: nat)
    requires chunkPow <= powN && chunkPow < 32
    ensures var j := BitAnd(v, Pow2(powN) - 1);
            j == v % Pow2(powN)
            && ShiftRight(j, chunkPow) == j / Pow2(chunkPow) < Pow2(powN - chunkPow)
            && BitAnd(j, Pow2(chunkPow) - 1) == j % Pow2(chunkPow)
            && j == (j / Pow2(chunkPow)) * Pow2(chunkPow) + j % Pow2(chunkPow)
  {
    var j := BitAnd(v, Pow2(powN) - 1);
    MaskIsRemainder(v, powN);
    assert j < Pow2(powN);
    SplitIndex(j, chunkPow, powN - chunkPow);
  }

  /** An index below 2^(a + b) split at bit a: the quotient by 2^a (a >>> shift) is below
      2^b, the remainder is the mask of the low a bits, and the two rebuild the index. */
  lemma SplitIndex(j: nat, a: nat, b: nat)
    requires a < 32 && j < Pow2(a + b)
    ensures ShiftRight(j, a) == j / Pow2(a) < Pow2(b)
    ensures BitAnd(j, Pow2(a) - 1) == j % Pow2(a)
    ensures j == (j / Pow2(a)) * Pow2(a) + j % Pow2(a)
  {
    MaskIsRemainder(j, a);
    ShiftRightDivides(j, a);
    Pow2Split(j, a, b);
    QuotientRemainder(j, Pow2(a));
  }

  lemma QuotientRemainder(j: nat, q: nat)
    requires q > 0
    ensures j == (j / q) * q + j % q
  {
  }

  /** Where the mixing loop finds V_j: chunk j >>> chunkPow, place j & chunkMask, with
      j = Integerify(X) & (N - 1). That is X_(Integerify(X) mod N). */
  lemma Lookup(mix: Block -> Block, vv: seq<seq<Block>>, b: Block, powN: nat, chunkPow: nat, x: Block)
    requires Keeps(mix, |b|) && |x| > 0 && chunkPow <= powN && chunkPow < 32
    requires |vv| == Pow2(powN - chunkPow) && Stored(mix, vv, b, Pow2(chunkPow))
    ensures var j := BitAnd(Integerify(x), Pow2(powN) - 1);
            ShiftRight(j, chunkPow) < |vv| && BitAnd(j, Pow2(chunkPow) - 1) < Pow2(chunkPow)
            && vv[ShiftRight(j, chunkPow)][BitAnd(j, Pow2(chunkPow) - 1)] == Iter(mix, b, Integerify(x) % Pow2(powN))
  {
    ChunkCoordinates(Integerify(x), powN, chunkPow);
  }

  /** Every block held in the chunks has w sub-blocks. */
  predicate Shaped(vv: seq<seq<Block>>, w: nat) {
    forall c, k :: 0 <= c < |vv| && 0 <= k < |vv[c]| ==> |vv[c][k]| == w
  }

  /** The chunks as the fill loops leave them for N = 2^powN and chunks of 2^chunkPow
      blocks, chunkPow <= powN: 2^(powN - chunkPow) of them, chunkMask = 2^chunkPow - 1. */
  predicate Chunked(mix: Block -> Block, vv: seq<seq<Block>>, b: Block, n: nat, chunkPow: int, chunkMask: int)
    requires Keeps(mix, |b|)
  {
    n > 0 && PowerOfTwo(n) && 0 <= chunkPow <= TrailingZeros(n) < 32 && chunkMask == Pow2(chunkPow) - 1
    && |vv| == Pow2(TrailingZeros(n) - chunkPow) && Stored(mix, vv, b, Pow2(chunkPow))
  }

  /** Looking up V_j in chunks laid out as the fill loops leave them finds
      X_(Integerify(X) mod N). */
  lemma ChunkedLookup(mix: Block -> Block, vv: seq<seq<Block>>, b: Block, n: nat, chunkPow: int, chunkMask: int, x: Block)
    requires |b| > 0 && Keeps(mix, |b|) && |x| == |b| && n > 0 && chunkMask >= -1
    ensures var j := BitAnd(Integerify(x), n - 1);
            var c := ShiftRight(j, chunkPow);
            var place := if chunkMask < 0 then j else BitAnd(j, chunkMask);
            Chunked(mix, vv, b, n, chunkPow, chunkMask) ==>
              c < |vv| && place < |vv[c]| && |vv[c][place]| == |x|
              && XorBlock(vv[c][place], x) == XorBlock(x, Iter(mix, b, Integerify(x) % n))
  {
    if Chunked(mix, vv, b, n, chunkPow, chunkMask) {
      PowerOfTwoIsPow2(n);
      Lookup(mix, vv, b, TrailingZeros(n), chunkPow, x);
      var j := BitAnd(Integerify(x), n - 1);
      var vj := vv[ShiftRight(j, chunkPow)][BitAnd(j, chunkMask)];
      XorBlockCommutes(vj, x);
    }
  }

  /** The mixing loop of SMix run i more times from X: j = Integerify(X) & (N - 1) names
      chunk j >>> chunkPow and place j & chunkMask in it, and copying V_j out throws when that
      chunk or place does not exist. chunkMask is -1 for chunks of no block, where `&` keeps
      j whole. Over chunks as the fill loops leave them it is the loop of ROMix; over empty
      chunks its first copy throws. */
  function MixChunked(mix: Block -> Block, vv: seq<seq<Block>>, b: Block, n: nat, chunkPow: int, chunkMask: int, x: Block, i: nat): (o: Result<Block>)
    requires |b| > 0 && Keeps(mix, |b|) && |x| == |b| && n > 0 && chunkMask >= -1 && Shaped(vv, |b|)
    ensures o.Err? ==> o.error == IndexOutOfBounds
    ensures Chunked(mix, vv, b, n, chunkPow, chunkMask) ==> o == Ok(MixRef(mix, b, n, x, i))
    ensures i > 0 && (forall c :: 0 <= c < |vv| ==> |vv[c]| == 0) ==> o == Err(IndexOutOfBounds)
    decreases i
  {
    if i == 0 then Ok(x)
    else
      var j := BitAnd(Integerify(x), n - 1);
      var c := ShiftRight(j, chunkPow);
      ChunkedLookup(mix, vv, b, n, chunkPow, chunkMask, x);
      if c >= |vv| then Err(IndexOutOfBounds)
      else
        var place := if chunkMask < 0 then j else BitAnd(j, chunkMask);
        if place >= |vv[c]| then Err(IndexOutOfBounds)
        else MixChunked(mix, vv, b, n, chunkPow, chunkMask, mix(XorBlock(vv[c][place], x)), i - 1)
  }

  lemma XorBlockCommutes(a: Block, b: Block)
    requires |a| == |b|
    ensures XorBlock(a, b) == XorBlock(b, a)
  {
    forall s | 0 <= s < |a|
      ensures XorState(a[s], b[s]) == XorState(b[s], a[s])
    {
      assert forall i :: 0 <= i < STATE_WORDS ==> a[s][i] ^ b[s][i] == b[s][i] ^ a[s][i];
    }
  }

  /** The blocks the fill loops store have the size of B. */
  lemma StoredShaped(mix: Block -> Block, vv: seq<seq<Block>>, b: Block, bpc: nat)
    requires Keeps(mix, |b|) && Stored(mix, vv, b, bpc)
    ensures Shaped(vv, |b|)
  {
    forall c, k | 0 <= c < |vv| && 0 <= k < |vv[c]|
      ensures |vv[c][k]| == |b|
    {
      assert vv[c][k] == Iter(mix, b, c * bpc + k);
    }
  }

  /** 2^powN >>> d: 2^(powN - d) for d <= powN, made of 2^d parts of that size, and 0 past
      powN. */
  lemma ShiftOfPow2(powN: nat, d: nat)
    requires d < 32
    ensures d <= powN ==> ShiftRight(Pow2(powN), d) == Pow2(powN - d) && Pow2(d) * Pow2(powN - d) == Pow2(powN)
    ensures d > powN ==> ShiftRight(Pow2(powN), d) == 0
  {
    ShiftRightDivides(Pow2(powN), d);
    if d <= powN {
      var e := powN - d;
      Pow2Add(d, e);
      assert d + e == powN;
      ModUnique(Pow2(powN), Pow2(d), Pow2(e), 0);
    } else {
      Pow2Monotone(powN + 1, d);
      ModUnique(Pow2(powN), Pow2(d), 0, Pow2(powN));
    }
  }

  /** The chunk sizes of SMix for N = 2^powN: one block for d = powN, none past it, and for
      d < powN an even number, 2^d chunks of which hold N. */
  lemma ChunkSizes(n: int32, d: nat)
    requires n > 1 && PowerOfTwo(n) && d < 31
    ensures n == Pow2(TrailingZeros(n)) && TrailingZeros(n) <= 30
    ensures d <= TrailingZeros(n) ==> ShiftRight(n, d) == Pow2(TrailingZeros(n) - d)
    ensures d < TrailingZeros(n) ==> ShiftRight(n, d) % 2 == 0 && ShiftOne(d) * ShiftRight(n, d) == n
    ensures d == TrailingZeros(n) ==> ShiftRight(n, d) == 1
    ensures d > TrailingZeros(n) ==> ShiftRight(n, d) == 0
  {
    var powN := TrailingZeros(n);
    PowerOfTwoExponent(n);
    PowerOfTwoIsPow2(n);
    ShiftOfPow2(powN, d);
    if d < powN {
      Pow2Even(powN - d);
      assert ShiftOne(d) == Pow2(d);
    }
  }

  lemma Pow2Even(k: nat)
    requires k >= 1
    ensures Pow2(k) % 2 == 0
  {
    assert Pow2(k) == 2 * Pow2(k - 1);
  }

  /** The bytes a chunk of N >>> d blocks of bCount ints needs. */
  function ChunkBytes(n: int32, d: nat, bCount: nat): nat
    requires n > 1
  {
    4 * (ShiftRight(n, d) * bCount)
  }

  /** A chunk of N >>> d blocks of bCount ints has a byte size that fits an int. */
  predicate ChunkFits(n: int32, d: nat, bCount: nat)
    requires n > 1
  {
    ChunkBytes(n, d, bCount) <= INT_MAX
  }

  /** The byte capacity `new CIntArray(blocksPerChunk * BCount)` asks ByteBuffer.allocateDirect
      for: the product is an int, and so is the constructor's `capacity * BYTES_PER_INT`. */
  function ChunkCapacity(n: int32, d: nat, bCount: nat): (c: int32)
    requires n > 1
    ensures ChunkFits(n, d, bCount) ==> c == ChunkBytes(n, d, bCount)
    ensures !ChunkFits(n, d, bCount) ==> c < ChunkBytes(n, d, bCount)
  {
    Wrap32(Wrap32(ShiftRight(n, d) * bCount) * 4)
  }

  /** SMix runs to its end: chunks of at least two blocks (d < log2 N) whose size fits. */
  predicate SMixCompletes(n: int32, d: nat, bCount: nat)
    requires n > 1 && PowerOfTwo(n)
  {
    d < TrailingZeros(n) && ChunkFits(n, d, bCount)
  }

  /** The exception of an SMix that does not complete. A chunk whose wrapped byte count is
      negative makes allocateDirect throw IllegalArgumentException. A chunk that is allocated
      too small, or holds fewer than two blocks, makes a copy into or out of it throw
      IndexOutOfBoundsException. */
  function ChunkError(n: int32, d: nat, bCount: nat): (e: Error)
    requires n > 1
    ensures ChunkFits(n, d, bCount) ==> e == IndexOutOfBounds
    ensures !ChunkFits(n, d, bCount) ==> (e == IllegalArgument <==> ChunkCapacity(n, d, bCount) < 0)
    ensures e == IllegalArgument || e == IndexOutOfBounds
  {
    if ChunkCapacity(n, d, bCount) < 0 then IllegalArgument else IndexOutOfBounds
  }

  /** SMix(B, BOff, N, d, r) on one lane, over the block function mix: N split into 2^d
      chunks of N >>> d blocks, filled and then looked up. Each chunk is allocated with the
      int count blocksPerChunk * BCount. When that count fits and the chunks hold two or more
      blocks (d < log2 N), SMix is ROMix. Otherwise it throws: IllegalArgumentException for
      a wrapped negative capacity, and IndexOutOfBoundsException for a chunk too small.
      A chunk can be too small because its count wrapped, or because the fill loop overran
      a one-block chunk, or because the first copy out of a chunk of none overran it. */
  function SMix(mix: Block -> Block, b: Block, n: int32, d: nat): (o: Result<Block>)
    requires |b| > 0 && Keeps(mix, |b|) && n > 1 && PowerOfTwo(n) && d < 31 && 64 * |b| <= INT_MAX
    ensures SMixCompletes(n, d, 16 * |b|) ==> o == Ok(ROMix(mix, b, n))
    ensures !SMixCompletes(n, d, 16 * |b|) ==> o == Err(ChunkError(n, d, 16 * |b|))
  {
    var bCount: int32 := 16 * |b|;
    var capacity := ChunkCapacity(n, d, bCount);
    CapacityCases(n, d, bCount);
    if capacity < 0 then Err(IllegalArgument)
    else if capacity < ChunkBytes(n, d, bCount) then Err(IndexOutOfBounds)
    else FillAndMix(mix, b, n, d)
  }

  /** How SMix's two allocation tests relate to SMixCompletes and ChunkError. */
  lemma CapacityCases(n: int32, d: nat, bCount: nat)
    requires n > 1 && PowerOfTwo(n) && d < 31 && 4 * bCount <= INT_MAX
    ensures ChunkCapacity(n, d, bCount) < 0 ==> !SMixCompletes(n, d, bCount) && ChunkError(n, d, bCount) == IllegalArgument
    ensures 0 <= ChunkCapacity(n, d, bCount) < ChunkBytes(n, d, bCount) ==>
              !SMixCompletes(n, d, bCount) && ChunkError(n, d, bCount) == IndexOutOfBounds
    ensures ChunkCapacity(n, d, bCount) >= ChunkBytes(n, d, bCount) ==>
              (SMixCompletes(n, d, bCount) <==> d < TrailingZeros(n)) && ChunkError(n, d, bCount) == IndexOutOfBounds
  {
    SmallChunksFit(n, d, bCount);
  }

  /** Chunks of at most one block (d >= log2 N) always fit, since 4 * BCount does. */
  lemma SmallChunksFit(n: int32, d: nat, bCount: int)
    requires n > 1 && PowerOfTwo(n) && d < 31 && 0 <= 4 * bCount <= INT_MAX
    ensures d >= TrailingZeros(n) ==> ChunkFits(n, d, bCount)
  {
    ChunkSizes(n, d);
    if d >= TrailingZeros(n) {
      var blocks := ShiftRight(n, d);
      assert blocks * bCount <= bCount by { if blocks == 0 { } }
    }
  }

  /** SMix once its chunks are allocated at full size: the fill loop over 2^d chunks of
      N >>> d blocks, then the mixing loop. It is ROMix for chunks of two or more blocks and
      throws IndexOutOfBoundsException for chunks of one block or none. */
  function FillAndMix(mix: Block -> Block, b: Block, n: int32, d: nat): (o: Result<Block>)
    requires |b| > 0 && Keeps(mix, |b|) && n > 1 && PowerOfTwo(n) && d < 31
    ensures d < TrailingZeros(n) ==> o == Ok(ROMix(mix, b, n))
    ensures d >= TrailingZeros(n) ==> o == Err(IndexOutOfBounds)
  {
    var powN := TrailingZeros(n);
    var blocksPerChunk := ShiftRight(n, d);
    var chunkCount := ShiftOne(d);
    var chunkMask := blocksPerChunk - 1;
    var chunkPow := powN - d;
    ChunkSizes(n, d);
    assert Iter(mix, b, 0) == b;
    var filled :- FillChunks(mix, b, blocksPerChunk, chunkCount, b, []);
    StoredShaped(mix, filled.0, b, blocksPerChunk);
    assert d < powN ==> Chunked(mix, filled.0, b, n, chunkPow, chunkMask) && filled.1 == Iter(mix, b, n);
    MixChunked(mix, filled.0, b, n, chunkPow, chunkMask, filled.1, n)
  }

  // ---------------------------------------------------------------- MFcrypt

  /** The int array of a block: its sub-blocks one after another. */
  function Flatten(x: Block): (ws: seq<bv32>)
    ensures |ws| == 16 * |x|
  {
    seq(16 * |x|, k requires 0 <= k < 16 * |x| => x[k / 16][k % 16])
  }

  /** The block held by 16 * count ints. */
  function Unflatten(ws: seq<bv32>, count: nat): (x: Block)
    requires |ws| == 16 * count
    ensures |x| == count
  {
    seq(count, s requires 0 <= s < count => ws[16 * s..16 * s + 16])
  }

  /** Reading a block back from its ints gives the block. */
  lemma UnflattenFlatten(x: Block)
    ensures Unflatten(Flatten(x), |x|) == x
  {
    var ws := Flatten(x);
    var y := Unflatten(ws, |x|);
    forall s | 0 <= s < |x|
      ensures y[s] == x[s]
    {
      forall i | 0 <= i < STATE_WORDS
        ensures y[s][i] == x[s][i]
      {
        assert y[s][i] == ws[16 * s + i];
        assert (16 * s + i) / 16 == s && (16 * s + i) % 16 == i;
      }
    }
  }

  /** The ints of a block read from ints are those ints. */
  lemma FlattenUnflatten(ws: seq<bv32>, count: nat)
    requires |ws| == 16 * count
    ensures Flatten(Unflatten(ws, count)) == ws
  {
    var x := Unflatten(ws, count);
    var z := Flatten(x);
    forall k | 0 <= k < |ws|
      ensures z[k] == ws[k]
    {
      var s, i := k / 16, k % 16;
      assert k == 16 * s + i;
      assert x[s] == ws[16 * s..16 * s + 16];
    }
  }

  /** 32r ints of the first lane and 32r(lanes - 1) after it. */
  lemma LaneSplit(w: nat, lanes: nat)
    requires lanes > 0
    ensures w * lanes == w + w * (lanes - 1)
  {
  }

  /** The lanes of section 6 of RFC 7914: each run of 32r ints through ROMix on its own. */
  function LanesRef(mix: Block -> Block, ws: seq<bv32>, r: nat, n: nat, lanes: nat): (out: seq<bv32>)
    requires Keeps(mix, 2 * r) && r >= 1 && |ws| == 32 * r * lanes && n > 0
    ensures |out| == |ws|
  {
    if lanes == 0 then []
    else
      var w := 32 * r;
      LaneSplit(w, lanes);
      var x := ROMix(mix, Unflatten(ws[..w], 2 * r), n);
      Flatten(x) + LanesRef(mix, ws[w..], r, n, lanes - 1)
  }

  /** The lane loop of MFcrypt from one lane on: SMix over each run of 32r ints in turn;
      the first lane that throws ends the loop. */
  function Lanes(mix: Block -> Block, ws: seq<bv32>, r: nat, n: int32, d: nat, lanes: nat): (o: Result<seq<bv32>>)
    requires Keeps(mix, 2 * r) && r >= 1 && 128 * r <= INT_MAX && |ws| == 32 * r * lanes
    requires n > 1 && PowerOfTwo(n) && d < 31
    ensures SMixCompletes(n, d, 32 * r) ==> o == Ok(LanesRef(mix, ws, r, n, lanes))
    ensures !SMixCompletes(n, d, 32 * r) && lanes > 0 ==> o == Err(ChunkError(n, d, 32 * r))
  {
    if lanes == 0 then Ok([])
    else
      var w := 32 * r;
      LaneSplit(w, lanes);
      var b := Unflatten(ws[..w], 2 * r);
      assert |b| == 2 * r && 16 * |b| == w;
      var lane := SMix(mix, b, n, d);
      if lane.Err? then Err(lane.error)
      else Prepend(Flatten(lane.value), Lanes(mix, ws[w..], r, n, d, lanes - 1))
  }

  /** The ints of one lane ahead of those of the later lanes, or the exception of a later
      lane. */
  function Prepend(ws: seq<bv32>, rest: Result<seq<bv32>>): (o: Result<seq<bv32>>)
    ensures rest.Ok? ==> o == Ok(ws + rest.value)
    ensures rest.Err? ==> o == Err(rest.error)
  {
    match rest
    case Ok(v) => Ok(ws + v)
    case Err(e) => Err(e)
  }

  /** A PRF that returns as many bytes as asked: SingleIterationPBKDF2, PBKDF2-HMAC-SHA256
      with one iteration. */
  ghost predicate IsPrf(prf: (seq<bv8>, seq<bv8>, nat) -> seq<bv8>) {
    forall pass, salt, k :: |prf(pass, salt, k)| == k
  }

  /** scrypt as section 6 of RFC 7914 gives it. */
  function ScryptRfc(prf: (seq<bv8>, seq<bv8>, nat) -> seq<bv8>, mix: Block -> Block, pass: seq<bv8>, salt: seq<bv8>, n: nat, r: nat, p: nat, dkLen: nat): (key: seq<bv8>)
    requires IsPrf(prf) && Keeps(mix, 2 * r) && n > 0 && r >= 1
  {
    var bs := prf(pass, salt, 128 * r * p);
    assert 4 * (32 * r * p) == 128 * r * p;
    var mixed := LanesRef(mix, LEToInts(bs, 0, 32 * r * p), r, n, p);
    prf(pass, IntsToLE(mixed), dkLen)
  }

  /** The sizes MFcrypt computes in int arithmetic are exact when r * 128 * p fits:
      MFLenBytes = r * 128, p * MFLenBytes bytes, and BLen = that >>> 2 ints. */
  lemma MFcryptSizes(n: int, r: int, p: int, dkLen: int)
    requires ScryptParams.SizesOk(n, r, p, dkLen)
    ensures Wrap32(r * 128) == 128 * r && Wrap32(p * Wrap32(r * 128)) == 128 * r * p
    ensures (128 * r * p) / 4 == 32 * r * p && 128 * r <= INT_MAX
  {
    assert p * (r * 128) == 128 * r * p;
    MulMonotone(128 * r, 1, p);
  }

  /** MFcrypt(P, S, N, r, p, dkLen) with the chunk exponent d its loop chose: the lanes read
      as little-endian ints, SMix'ed, written back and hashed again. It gives the RFC 7914
      key when SMix completes, and throws SMix's exception otherwise. */
  function MFcrypt(prf: (seq<bv8>, seq<bv8>, nat) -> seq<bv8>, mix: Block -> Block, pass: seq<bv8>, salt: seq<bv8>, n: int32, r: int32, p: int32, dkLen: int32, d: nat): (o: Result<seq<bv8>>)
    requires IsPrf(prf) && ScryptParams.SizesOk(n, r, p, dkLen) && Keeps(mix, 2 * r) && d < 31
    ensures SMixCompletes(n, d, 32 * r) ==> o == Ok(ScryptRfc(prf, mix, pass, salt, n, r, p, dkLen))
    ensures !SMixCompletes(n, d, 32 * r) ==> o == Err(ChunkError(n, d, 32 * r))
    ensures o.Ok? ==> |o.value| == dkLen
  {
    MFcryptSizes(n, r, p, dkLen);
    var mfLenBytes := Wrap32(r * 128);
    var bytes := prf(pass, salt, Wrap32(p * mfLenBytes));
    var bLen := |bytes| / 4;
    var ws := LEToInts(bytes, 0, bLen);
    var mixed := Lanes(mix, ws, r, n, d, p);
    if mixed.Err? then Err(mixed.error)
    else Ok(prf(pass, IntsToLE(mixed.value), dkLen))
  }

  /** Under the intended checks, the intended d leaves chunks of at most 1024 r ints, or of
      two blocks of at most 2^21 ints each, and SMix completes. */
  lemma IntendedChunkFits(n: int32, r: int32, p: int32, dkLen: int32)
    requires ScryptParams.ParamsOk(n, r, p, dkLen)
    ensures SMixCompletes(n, ScryptParams.ChunkExponentIntended(n, r) as nat, 32 * r)
  {
    ScryptParams.AcceptedRBelow2To21(n, r, p, dkLen);
    ChunkFitsBelow(n, ScryptParams.ChunkExponentIntended(n, r) as nat, r);
  }

  /** A chunk exponent below log2 N whose chunks hold two blocks, or at most 1024 r-blocks
      in all, leaves chunks that fit an int for r below 2^21. */
  lemma ChunkFitsBelow(n: int32, d: nat, r: int)
    requires n > 1 && PowerOfTwo(n) && d < TrailingZeros(n) && 1 <= r < 0x20_0000
    requires TrailingZeros(n) - d <= 1 || Pow2(TrailingZeros(n) - d) * r <= 1024
    ensures SMixCompletes(n, d, 32 * r)
  {
    PowerOfTwoExponent(n);
    ChunkSizes(n, d);
    var bpc := ShiftRight(n, d);
    if TrailingZeros(n) - d <= 1 {
      assert bpc == 2;
      ChunkBytesBound(bpc, r, 2 * 0x20_0000);
    } else {
      ChunkBytesBound(bpc, r, 1024);
    }
  }

  /** A chunk of bpc blocks of 32 r ints, with bpc * r <= m, takes 128 m bytes at most. */
  lemma ChunkBytesBound(bpc: nat, r: nat, m: nat)
    requires bpc * r <= m
    ensures 4 * (bpc * (32 * r)) <= 128 * m
  {
    assert 4 * (bpc * (32 * r)) == 128 * (bpc * r);
  }

  /** generate(passphrase, salt, N, r, p, dkLen) with the checks and the chunk loop as
      intended: the RFC 7914 key for accepted parameters, IllegalArgumentException
      otherwise. */
  function Generate(prf: (seq<bv8>, seq<bv8>, nat) -> seq<bv8>, mix: Block -> Block, passphrase: Option<seq<bv8>>, salt: Option<seq<bv8>>, n: int32, r: int32, p: int32, dkLen: int32): (o: Result<seq<bv8>>)
    requires IsPrf(prf) && MixesBlocks(mix, r)
    ensures o.Ok? <==> passphrase.Some? && salt.Some? && ScryptParams.ParamsOk(n, r, p, dkLen)
    ensures o.Err? ==> o.error == IllegalArgument
    ensures o.Ok? ==> |o.value| == dkLen && o.value == ScryptRfc(prf, mix, passphrase.value, salt.value, n, r, p, dkLen)
  {
    var c := ScryptParams.CheckIntended(passphrase, salt, n, r, p, dkLen);
    if c.Fail? then Err(c.error)
    else
      PowerOfTwoExponent(n);
      ScryptParams.AcceptedSizesOk(n, r, p, dkLen);
      IntendedChunkFits(n, r, p, dkLen);
      MFcrypt(prf, mix, passphrase.value, salt.value, n, r, p, dkLen, ScryptParams.ChunkExponentIntended(n, r) as nat)
  }

  /** generate as written: the checks of generate, then MFcrypt with the chunk exponent of
      its own loop, which starts from the int product N * r. When the checks pass and SMix
      completes it returns the RFC 7914 key, also for the r above 2^22 that the wrapped
      bound on p lets through (WrappedCheckGivesKey); otherwise it throws the checks' or
      SMix's exception. The inputs excluded are those the checks pass with r * 128 * p
      above INT_MAX, where MFcrypt's own sizes wrap. */
  function GenerateAsWritten(prf: (seq<bv8>, seq<bv8>, nat) -> seq<bv8>, mix: Block -> Block, passphrase: Option<seq<bv8>>, salt: Option<seq<bv8>>, n: int32, r: int32, p: int32, dkLen: int32): (o: Result<seq<bv8>>)
    requires IsPrf(prf) && MixesBlocks(mix, r)
    requires ScryptParams.Check(passphrase, salt, n, r, p, dkLen).Pass? ==> 128 * r * p <= INT_MAX
    ensures o.Err? <==> ScryptParams.Check(passphrase, salt, n, r, p, dkLen).Fail?
                        || !SMixCompletes(n, ScryptParams.ChunkExponent(n, r) as nat, 32 * r)
    ensures o.Ok? ==> passphrase.Some? && salt.Some? && r >= 1 && n > 1 && |o.value| == dkLen
                      && o.value == ScryptRfc(prf, mix, passphrase.value, salt.value, n, r, p, dkLen)
    ensures o.Err? && ScryptParams.Check(passphrase, salt, n, r, p, dkLen).Fail? ==>
              o.error == ScryptParams.Check(passphrase, salt, n, r, p, dkLen).error
    ensures o.Err? && ScryptParams.Check(passphrase, salt, n, r, p, dkLen).Pass? ==>
              o.error == ChunkError(n, ScryptParams.ChunkExponent(n, r) as nat, 32 * r)
  {
    var c := ScryptParams.Check(passphrase, salt, n, r, p, dkLen);
    if c.Fail? then Err(c.error)
    else
      PowerOfTwoExponent(n);
      ScryptParams.PassedSizesOk(passphrase, salt, n, r, p, dkLen);
      MFcrypt(prf, mix, passphrase.value, salt.value, n, r, p, dkLen, ScryptParams.ChunkExponent(n, r) as nat)
  }

  /** Where the int divisor 128 * r * 8 wraps, generate as written refuses: every r from
      2^21 to 2^22 - 1 with IllegalArgumentException, and r = 2^22 (once the buffers and N
      pass) with ArithmeticException; any error it raises is one of these two or one of
      SMix. Outside the wrapped acceptance of r above 2^22, it fails exactly when the
      intended checks refuse or SMix does not complete. */
  lemma GenerateAsWrittenWrapped(prf: (seq<bv8>, seq<bv8>, nat) -> seq<bv8>, mix: Block -> Block, passphrase: Option<seq<bv8>>, salt: Option<seq<bv8>>, n: int32, r: int32, p: int32, dkLen: int32)
    requires IsPrf(prf) && MixesBlocks(mix, r)
    requires ScryptParams.Check(passphrase, salt, n, r, p, dkLen).Pass? ==> 128 * r * p <= INT_MAX
    ensures 0x20_0000 <= r < 0x40_0000 ==> GenerateAsWritten(prf, mix, passphrase, salt, n, r, p, dkLen) == Err(IllegalArgument)
    ensures r == 0x40_0000 && passphrase.Some? && salt.Some? && n > 1 && PowerOfTwo(n) ==>
              GenerateAsWritten(prf, mix, passphrase, salt, n, r, p, dkLen) == Err(Arithmetic)
    ensures var o := GenerateAsWritten(prf, mix, passphrase, salt, n, r, p, dkLen);
            o.Err? ==> o.error == IllegalArgument || o.error == IndexOutOfBounds || (o.error == Arithmetic && r >= 0x20_0000)
    ensures (r > 0x40_0000 && ScryptParams.Check(passphrase, salt, n, r, p, dkLen).Pass? ==> ScryptParams.ParamsOk(n, r, p, dkLen)) ==>
              (GenerateAsWritten(prf, mix, passphrase, salt, n, r, p, dkLen).Err?
               <==> !(passphrase.Some? && salt.Some? && ScryptParams.ParamsOk(n, r, p, dkLen))
                    || !SMixCompletes(n, ScryptParams.ChunkExponent(n, r) as nat, 32 * r))
  {
    if 0x20_0000 <= r < 0x40_0000 {
      ScryptParams.CheckRefusesUpTo2To22(passphrase, salt, n, r, p, dkLen);
    } else if r == 0x40_0000 && passphrase.Some? && salt.Some? && n > 1 && PowerOfTwo(n) {
      ScryptParams.CheckDividesByZeroAt2To22(passphrase, salt, n, p, dkLen);
    }
    if r > 0x40_0000 && ScryptParams.Check(passphrase, salt, n, r, p, dkLen).Pass? ==> ScryptParams.ParamsOk(n, r, p, dkLen) {
      ScryptParams.CheckAgreesUnlessWrapped(passphrase, salt, n, r, p, dkLen);
    }
  }

  /** The end-to-end form of MaxParallelDividesByZero: with r = 2^22, generate as written
      throws ArithmeticException where the intended checks throw IllegalArgumentException. */
  lemma GenerateDividesByZero(prf: (seq<bv8>, seq<bv8>, nat) -> seq<bv8>, mix: Block -> Block, pass: seq<bv8>, salt: seq<bv8>)
    requires IsPrf(prf) && MixesBlocks(mix, 0x40_0000)
    ensures GenerateAsWritten(prf, mix, Some(pass), Some(salt), 2, 0x40_0000, 1, 1) == Err(Arithmetic)
    ensures Generate(prf, mix, Some(pass), Some(salt), 2, 0x40_0000, 1, 1) == Err(IllegalArgument)
  {
    assert ScryptParams.IsPowerOf2(2);
    ScryptParams.CheckDividesByZeroAt2To22(Some(pass), Some(salt), 2, 1, 1);
  }

  /** With r = 2^22 + 1 the wrapped bound on p passes p = 1, all of MFcrypt's sizes are exact,
      and with N = 2 two-block chunks of 2^30 + 256 bytes fit: generate as written returns
      a key where the intended checks throw IllegalArgumentException. */
  lemma WrappedCheckGivesKey(prf: (seq<bv8>, seq<bv8>, nat) -> seq<bv8>, mix: Block -> Block, pass: seq<bv8>, salt: seq<bv8>)
    requires IsPrf(prf) && MixesBlocks(mix, 0x40_0001)
    ensures GenerateAsWritten(prf, mix, Some(pass), Some(salt), 2, 0x40_0001, 1, 1)
            == Ok(ScryptRfc(prf, mix, pass, salt, 2, 0x40_0001, 1, 1))
    ensures Generate(prf, mix, Some(pass), Some(salt), 2, 0x40_0001, 1, 1) == Err(IllegalArgument)
  {
    ScryptParams.WrappedPassExact(pass, salt);
    assert TrailingZeros(2) == 1 && ShiftRight(2, 0) == 2;
    assert SMixCompletes(2, 0, 32 * 0x40_0001);
  }

  /** For 1 <= r <= 512 and N * r within int range, generate as written is generate as
      intended. */
  lemma GenerateAsWrittenAgrees(prf: (seq<bv8>, seq<bv8>, nat) -> seq<bv8>, mix: Block -> Block, passphrase: Option<seq<bv8>>, salt: Option<seq<bv8>>, n: int32, r: int32, p: int32, dkLen: int32)
    requires IsPrf(prf) && MixesBlocks(mix, r) && 1 <= r <= 512 && n * r <= INT_MAX
    ensures GenerateAsWritten(prf, mix, passphrase, salt, n, r, p, dkLen) == Generate(prf, mix, passphrase, salt, n, r, p, dkLen)
  {
    ScryptParams.CheckExactBelowOverflow(passphrase, salt, n, r, p, dkLen);
    if passphrase.Some? && salt.Some? && ScryptParams.ParamsOk(n, r, p, dkLen) {
      ScryptParams.AcceptedSizesOk(n, r, p, dkLen);
      ScryptParams.ChunkExponentsAgree(n, r);
      IntendedChunkFits(n, r, p, dkLen);
    }
  }

  /** For N = 4, r = 1024, p = 1 (parameters generate accepts) generate as written throws
      IndexOutOfBoundsException while generate as intended returns the key. */
  lemma OneBlockChunksThrow(prf: (seq<bv8>, seq<bv8>, nat) -> seq<bv8>, mix: Block -> Block, pass: seq<bv8>, salt: seq<bv8>)
    requires IsPrf(prf) && MixesBlocks(mix, 1024)
    ensures GenerateAsWritten(prf, mix, Some(pass), Some(salt), 4, 1024, 1, 1) == Err(IndexOutOfBounds)
    ensures Generate(prf, mix, Some(pass), Some(salt), 4, 1024, 1, 1).Ok?
  {
    ScryptParams.ChunkOfOneBlock();
    assert ScryptParams.ParamsOk(4, 1024, 1, 1) by {
      assert ScryptParams.IsPowerOf2(4);
    }
    ScryptParams.CheckExactBelowOverflow(Some(pass), Some(salt), 4, 1024, 1, 1);
    assert TrailingZeros(4) == 2;
    assert ChunkFits(4, 2, 32 * 1024) && ChunkError(4, 2, 32 * 1024) == IndexOutOfBounds;
  }

  /** For N = 2^22, r = 512, p = 1 (parameters generate accepts) N * r = 2^31 wraps to a
      negative total, the loop as written keeps d = 0, and each chunk's 2^22 * 2^14 ints wrap
      to a capacity of 0: the first copy into it throws IndexOutOfBoundsException, while
      generate as intended returns the key. */
  lemma ChunkAllocationWraps(prf: (seq<bv8>, seq<bv8>, nat) -> seq<bv8>, mix: Block -> Block, pass: seq<bv8>, salt: seq<bv8>)
    requires IsPrf(prf) && MixesBlocks(mix, 512)
    ensures GenerateAsWritten(prf, mix, Some(pass), Some(salt), 0x40_0000, 512, 1, 1) == Err(IndexOutOfBounds)
    ensures Generate(prf, mix, Some(pass), Some(salt), 0x40_0000, 512, 1, 1).Ok?
  {
    ScryptParams.WrappedTotalAt2To22(pass, salt);
    assert ShiftRight(0x40_0000, 0) == 0x40_0000;
    assert ChunkCapacity(0x40_0000, 0, 32 * 512) == 0;
    assert !SMixCompletes(0x40_0000, 0, 32 * 512);
    assert ChunkError(0x40_0000, 0, 32 * 512) == IndexOutOfBounds;
  }
}
