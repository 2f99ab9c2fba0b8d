/** The keystream side of Salsa20Engine: the byte limit counter, returnByte, processBytes,
    skip, seekTo. A keystream byte is the byte at the engine's index in the block of its
    counter; every step moves the 70-bit position (counter times 64 plus index) by one. */
module SalsaStream {
  import opened Errors
  import opened JavaInt
  import opened SecureInts
  import opened SecureBytes
  import opened SalsaCounter
  import opened SalsaCore
  import opened SalsaEngine

  const TWO_69: nat := 32 * TWO_64
  const TWO_96: nat := TWO_32 * TWO_64

  // The limit counter

  /** The bytes counted so far: cW2, cW1, cW0 as the digits of a 96-bit number. */
  function Total(l: Limit): (t: nat)
    ensures t < TWO_96
  {
    Unsigned(l.w2) * TWO_64 + Unsigned(l.w1) * TWO_32 + Unsigned(l.w0)
  }

  /** `(x & 0x20) != 0`: bit 5 of the int. */
  predicate Bit5(x: int32) {
    (Unsigned(x) / 32) % 2 == 1
  }

  /** x modulo 2^96 for 0 <= x < 2^97: the count wraps like the three words it is kept in. */
  function Mod96(x: nat): (r: nat)
    requires x < 2 * TWO_96
  {
    if x < TWO_96 then x else x - TWO_96
  }

  /** The carry into cW1 and cW2 shared by both limit checks: a carry into cW2 answers with
      bit 5 of its new value, and no carry answers false. */
  function CarryOut(l: Limit): (r: (Limit, bool))
    ensures Total(r.0) == Mod96(Total(l) + TWO_32)
    ensures r.1 <==> r.0.w2 != l.w2 && Bit5(r.0.w2)
    ensures r.0.w2 != l.w2 ==> r.0.w1 == 0
    ensures r.0.w0 == l.w0
  {
    UnsignedIntAdd(l.w1, 1);
    UnsignedIntAdd(l.w2, 1);
    var w1 := IntAdd(l.w1, 1);
    if w1 != 0 then (l.(w1 := w1), false)
    else
      var w2 := IntAdd(l.w2, 1);
      (l.(w1 := w1, w2 := w2), Bit5(w2))
  }

  /** limitExceeded(): one more byte; the answer comes from the carry, if any. */
  function LimitExceeded(l: Limit): (r: (Limit, bool))
    ensures Total(r.0) == Mod96(Total(l) + 1)
    ensures r.1 <==> r.0.w2 != l.w2 && Bit5(r.0.w2)
    ensures r.0.w2 != l.w2 ==> r.0.w1 == 0
  {
    UnsignedIntAdd(l.w0, 1);
    var w0 := IntAdd(l.w0, 1);
    if w0 == 0 then CarryOut(l.(w0 := w0)) else (l.(w0 := w0), false)
  }

  /** limitExceeded(len): len more bytes; the carry out of cW0 is tested as `cW0 < len &&
      cW0 >= 0` on the new low word, which for a non-negative len is the unsigned wrap. */
  function LimitExceededBy(l: Limit, len: int32): (r: (Limit, bool))
    ensures len >= 0 ==> Total(r.0) == Mod96(Total(l) + len)
    ensures r.1 <==> r.0.w2 != l.w2 && Bit5(r.0.w2)
    ensures r.0.w2 != l.w2 ==> r.0.w1 == 0
  {
    UnsignedIntAdd(l.w0, len);
    var w0 := IntAdd(l.w0, len);
    if w0 < len && w0 >= 0 then CarryOut(l.(w0 := w0)) else (l.(w0 := w0), false)
  }

  /** The check refuses nothing while the count stays below 2^69 bytes. */
  lemma LimitQuietBelow(l: Limit, len: int32)
    requires 0 <= len && Total(l) + len < TWO_69
    ensures !LimitExceededBy(l, len).1
  {
    var r := LimitExceededBy(l, len).0;
    assert Unsigned(r.w2) * TWO_64 <= Total(r);
  }

  /** The call that takes the count from below 2^69 to 2^69 or more is refused: the limit is
      2^69 bytes (cW2 reaching 32), although the message speaks of 2^70. */
  lemma LimitTripsAt2To69(l: Limit, len: int32)
    requires 0 <= len && Total(l) < TWO_69 <= Total(l) + len
    ensures LimitExceededBy(l, len).1
  {
    var r := LimitExceededBy(l, len).0;
    assert Unsigned(l.w2) * TWO_64 <= Total(l);
    if r.w2 == l.w2 {
      assert false;
    }
    assert Unsigned(r.w2) == 32;
  }

  /** The same for the single-byte check of returnByte. */
  lemma ByteLimitTripsAt2To69(l: Limit)
    ensures Total(l) + 1 < TWO_69 ==> !LimitExceeded(l).1
    ensures Total(l) + 1 == TWO_69 ==> LimitExceeded(l).1
  {
    var r := LimitExceeded(l).0;
    assert Unsigned(r.w2) * TWO_64 <= Total(r);
    assert Unsigned(l.w2) * TWO_64 <= Total(l);
    if Total(l) + 1 == TWO_69 && r.w2 == l.w2 {
      assert false;
    }
  }

  /** `(x & 0x40) != 0`: bit 6 of the int, the bit whose carry means 2^70 bytes. */
  predicate Bit6(x: int32) {
    (Unsigned(x) / 64) % 2 == 1
  }

  /** limitExceeded(len) with the test the message and the comment describe: cW2 reaching 64,
      that is 2^(32 + 32 + 6) bytes. */
  function LimitExceededByIntended(l: Limit, len: int32): (r: (Limit, bool))
    ensures len >= 0 ==> Total(r.0) == Mod96(Total(l) + len)
    ensures r.1 <==> r.0.w2 != l.w2 && Bit6(r.0.w2)
  {
    UnsignedIntAdd(l.w0, len);
    var w0 := IntAdd(l.w0, len);
    if w0 < len && w0 >= 0 then
      var c := CarryOut(l.(w0 := w0)).0;
      (c, c.w2 != l.w2 && Bit6(c.w2))
    else (l.(w0 := w0), false)
  }

  /** limitExceeded() with the bit-6 test: the single-byte check as intended. */
  function LimitExceededIntended(l: Limit): (r: (Limit, bool))
    ensures Total(r.0) == Mod96(Total(l) + 1)
    ensures r.1 <==> r.0.w2 != l.w2 && Bit6(r.0.w2)
  {
    UnsignedIntAdd(l.w0, 1);
    var w0 := IntAdd(l.w0, 1);
    if w0 == 0 then
      var c := CarryOut(l.(w0 := w0)).0;
      (c, c.w2 != l.w2 && Bit6(c.w2))
    else (l.(w0 := w0), false)
  }

  /** The corrected single-byte check refuses exactly the byte that reaches 2^70. */
  lemma IntendedByteLimitAt2To70(l: Limit)
    ensures Total(l) + 1 < TWO_70 ==> !LimitExceededIntended(l).1
    ensures Total(l) + 1 == TWO_70 ==> LimitExceededIntended(l).1
  {
    var r := LimitExceededIntended(l).0;
    assert Unsigned(r.w2) * TWO_64 <= Total(r);
    assert Unsigned(l.w2) * TWO_64 <= Total(l);
    if Total(l) + 1 == TWO_70 && r.w2 == l.w2 {
      assert false;
    }
  }

  /** The corrected check refuses nothing while the count stays below 2^70 bytes. */
  lemma IntendedLimitQuietBelow(l: Limit, len: int32)
    requires 0 <= len && Total(l) + len < TWO_70
    ensures !LimitExceededByIntended(l, len).1
  {
    var r := LimitExceededByIntended(l, len).0;
    assert Unsigned(r.w2) * TWO_64 <= Total(r);
  }

  /** The corrected check refuses the call that takes the count to 2^70 or more. */
  lemma IntendedLimitTripsAt2To70(l: Limit, len: int32)
    requires 0 <= len && Total(l) < TWO_70 <= Total(l) + len
    ensures LimitExceededByIntended(l, len).1
  {
    var r := LimitExceededByIntended(l, len).0;
    assert Unsigned(l.w2) * TWO_64 <= Total(l);
    if r.w2 == l.w2 {
      assert false;
    }
    assert Unsigned(r.w2) == 64;
  }

  /** Below 2^69 bytes the check as written and the corrected one are the same function. */
  lemma LimitChecksAgreeBelow(l: Limit, len: int32)
    requires 0 <= len && Total(l) + len < TWO_69
    ensures LimitExceededBy(l, len) == LimitExceededByIntended(l, len)
  {
    LimitQuietBelow(l, len);
    IntendedLimitQuietBelow(l, len);
  }

  /** The count 2^69 - 1 plus one byte: the check as written refuses it, the corrected one
      lets it through. */
  lemma LimitHalvesAllowance()
    ensures Total(Limit(-1, -1, 31)) == TWO_69 - 1
    ensures LimitExceededBy(Limit(-1, -1, 31), 1).1
    ensures !LimitExceededByIntended(Limit(-1, -1, 31), 1).1
  {
    var l := Limit(-1, -1, 31);
    assert Total(l) == TWO_69 - 1;
    LimitTripsAt2To69(l, 1);
    IntendedLimitQuietBelow(l, 1);
  }

  // The keystream

  /** A keystream block function: the block for a round count and a state. The stepping
      below is stated for any such function; the engine's is SALSA. */
  type BlockFunction = (int32, seq<int32>) -> seq<bv8>

  ghost predicate Sized(f: BlockFunction) {
    forall rounds, words :: |f(rounds, words)| == BLOCK_BYTES
  }

  /** generateKeyStream as a block function: the Salsa20 block of a well-formed state. */
  const SALSA: BlockFunction :=
    (rounds: int32, words: seq<int32>) =>
      if |words| == STATE_WORDS && rounds % 2 == 0 then Block(rounds, words) else seq(BLOCK_BYTES, _ => 0)

  lemma SalsaSized()
    ensures Sized(SALSA)
  {
  }

  /** On the engine's own state SALSA is generateKeyStream. */
  lemma SalsaIsBlock(e: Engine)
    requires Valid(e)
    ensures SALSA(e.rounds, e.state.words) == Block(e.rounds, e.state.words)
    ensures GenerateKeyStream(e).keyStream == SALSA(e.rounds, e.state.words)
  {
  }

  /** The byte at position p of the keystream of a key: byte p % 64 of the block whose counter
      is p / 64, all other state words being those of w. */
  function KeyByte(f: BlockFunction, rounds: int32, w: seq<int32>, p: nat): bv8
    requires Sized(f) && |w| == STATE_WORDS && p < TWO_70
  {
    f(rounds, WithCounter(w, p / BLOCK_BYTES))[p % BLOCK_BYTES]
  }

  /** The engine holds the key and nonce of w (everything but the counter) and the block of
      its state. */
  predicate KeyedBy(f: BlockFunction, e: Engine, w: seq<int32>) {
    Valid(e) && e.keyStream == f(e.rounds, e.state.words) && SameOutsideCounter(e.state.words, w)
  }

  /** The engine's keystream block is the Salsa20 block of its state. */
  lemma KeyedBySalsa(e: Engine, w: seq<int32>)
    requires Valid(e)
    ensures KeyedBy(SALSA, e, w) <==> Consistent(e) && SameOutsideCounter(e.state.words, w)
  {
  }

  /** One pass of the loop body shared by returnByte and processBytes: the keystream byte at the
      index is used, the index moves on modulo 64 (`& 63`), and on a wrap to zero the counter
      advances and the next block is generated. */
  function StepBy(f: BlockFunction, e: Engine): (r: (Engine, bv8))
    requires Sized(f) && Valid(e)
    ensures Valid(r.0) && SameOutsideCounter(r.0.state.words, e.state.words)
    ensures r.0 == e.(index := r.0.index, state := r.0.state, keyStream := r.0.keyStream)
    ensures r.1 == e.keyStream[e.index]
  {
    var out := e.keyStream[e.index];
    var index := (e.index + 1) % BLOCK_BYTES;
    if index == 0 then
      var e1 := e.(index := 0, state := AdvanceCounter(e.state));
      (e1.(keyStream := f(e1.rounds, e1.state.words)), out)
    else (e.(index := index), out)
  }

  lemma AtOwnCounter(e: Engine, w: seq<int32>)
    requires Valid(e) && SameOutsideCounter(e.state.words, w)
    ensures WithCounter(w, Position(e) / BLOCK_BYTES) == e.state.words
  {
    PositionParts(e);
    WithCounterOutside(e.state.words, w, Counter(e.state));
    WithOwnCounter(e.state);
  }

  /** Position p moved forward by n <= 2^70 bytes: the 70-bit position wraps to zero. */
  function Plus70(p: nat, n: nat): (r: nat)
    requires p < TWO_70 && n <= TWO_70
    ensures r < TWO_70 && (r == p + n || r == p + n - TWO_70)
  {
    if p + n < TWO_70 then p + n else p + n - TWO_70
  }

  /** Moves on the 70-bit circle compose. */
  lemma Plus70Composes(p: nat, a: nat, b: nat)
    requires p < TWO_70 && a + b <= TWO_70
    ensures Plus70(Plus70(p, a), b) == Plus70(p, a + b)
  {
  }

  /** A step yields the reference byte at the engine's position and moves the position by one. */
  lemma StepFollowsPosition(f: BlockFunction, e: Engine, w: seq<int32>)
    requires Sized(f) && KeyedBy(f, e, w)
    ensures StepBy(f, e).1 == KeyByte(f, e.rounds, w, Position(e))
    ensures KeyedBy(f, StepBy(f, e).0, w)
    ensures Position(StepBy(f, e).0) == Plus70(Position(e), 1)
  {
    AtOwnCounter(e, w);
    PositionParts(e);
    if e.index + 1 == BLOCK_BYTES {
      AdvanceCounterIncrements(e.state);
    }
  }

  /** The engine after n steps. */
  function RunBy(f: BlockFunction, e: Engine, n: nat): (r: Engine)
    requires Sized(f) && Valid(e)
    ensures Valid(r) && r == e.(index := r.index, state := r.state, keyStream := r.keyStream)
    decreases n
  {
    if n == 0 then e else RunBy(f, StepBy(f, e).0, n - 1)
  }

  /** The keystream byte used by step m (counting from 0). */
  function NthKey(f: BlockFunction, e: Engine, m: nat): (b: bv8)
    requires Sized(f) && Valid(e)
    ensures m == 0 ==> b == e.keyStream[e.index]
    decreases m
  {
    if m == 0 then StepBy(f, e).1 else NthKey(f, StepBy(f, e).0, m - 1)
  }

  /** After n steps (at most 2^70, the period of the position) the engine still holds the
      key and its position has advanced by n. */
  lemma {:induction false} RunAdvances(f: BlockFunction, e: Engine, w: seq<int32>, n: nat)
    requires Sized(f) && KeyedBy(f, e, w) && n <= TWO_70
    ensures KeyedBy(f, RunBy(f, e, n), w)
    ensures Position(RunBy(f, e, n)) == Plus70(Position(e), n)
    decreases n
  {
    if n > 0 {
      StepFollowsPosition(f, e, w);
      RunAdvances(f, StepBy(f, e).0, w, n - 1);
      Plus70Composes(Position(e), 1, n - 1);
    }
  }

  /** The keystream an engine produces is the reference keystream of its key from its position
      on: step m uses the byte at the position plus m. */
  lemma {:induction false} NthKeyFollowsPosition(f: BlockFunction, e: Engine, w: seq<int32>, m: nat)
    requires Sized(f) && KeyedBy(f, e, w) && m < TWO_70
    ensures NthKey(f, e, m) == KeyByte(f, e.rounds, w, Plus70(Position(e), m))
    decreases m
  {
    StepFollowsPosition(f, e, w);
    if m > 0 {
      var e1 := StepBy(f, e).0;
      NthKeyFollowsPosition(f, e1, w, m - 1);
      Plus70Composes(Position(e), 1, m - 1);
    }
  }

  /** The loop of processBytes from iteration i: out[i + outOff] = keyStream[index] ^
      in[i + inOff], then a step. The input is read before the output is written, so a bad
      input index is reported first; a failure ends the loop. */
  function ProcessLoop(f: BlockFunction, e: Engine, input: CByteArray, inOff: int, out: CByteArray, outOff: int,
                       i: nat, len: nat): (r: Result<(Engine, CByteArray)>)
    requires Sized(f) && Valid(e) && i <= len
    ensures r.Ok? ==> r.value.1.Length() == out.Length() && r.value.1.store.readOnly == out.store.readOnly
    ensures r.Ok? ==> Valid(r.value.0) && r.value.0.limit == e.limit
    decreases len - i
  {
    if i == len then Ok((e, out))
    else
      var b :- SecureBytes.Get(input, i + inOff);
      var out1 :- SecureBytes.Set(out, i + outOff, e.keyStream[e.index] ^ b);
      ProcessLoop(f, StepBy(f, e).0, input, inOff, out1, outOff, i + 1, len)
  }

  /** The loop succeeds exactly when every index it touches is in range and the output is
      writable. */
  lemma {:induction false} ProcessLoopSucceeds(f: BlockFunction, e: Engine, input: CByteArray, inOff: int,
                                               out: CByteArray, outOff: int, i: nat, len: nat)
    requires Sized(f) && Valid(e) && i <= len
    ensures ProcessLoop(f, e, input, inOff, out, outOff, i, len).Ok? <==>
              i == len || (0 <= i + inOff && inOff + len <= input.Length()
                           && 0 <= i + outOff && outOff + len <= out.Length() && !out.store.readOnly)
    decreases len - i
  {
    if i < len {
      var g := SecureBytes.Get(input, i + inOff);
      if g.Ok? {
        var s := SecureBytes.Set(out, i + outOff, e.keyStream[e.index] ^ g.value);
        if s.Ok? {
          ProcessLoopSucceeds(f, StepBy(f, e).0, input, inOff, s.value, outOff, i + 1, len);
        }
      }
    }
  }

  /** The loop over in-range indices and a writable output leaves the engine len - i steps on
      and writes in ^ keystream over out[outOff + i .. outOff + len), nothing else. */
  lemma {:induction false} ProcessLoopXors(f: BlockFunction, e: Engine, input: CByteArray, inOff: int,
                                           out: CByteArray, outOff: int, i: nat, len: nat)
    requires Sized(f) && Valid(e) && i <= len
    requires 0 <= i + inOff && inOff + len <= input.Length()
    requires 0 <= i + outOff && outOff + len <= out.Length() && !out.store.readOnly
    ensures ProcessLoop(f, e, input, inOff, out, outOff, i, len).Ok?
    ensures var r := ProcessLoop(f, e, input, inOff, out, outOff, i, len).value;
            r.0 == RunBy(f, e, len - i) && r.1.Length() == out.Length() && !r.1.store.readOnly
    decreases len - i
  {
    if i < len {
      var g := SecureBytes.Get(input, i + inOff).value;
      var s := SecureBytes.Set(out, i + outOff, e.keyStream[e.index] ^ g).value;
      var e1 := StepBy(f, e).0;
      ProcessLoopXors(f, e1, input, inOff, s, outOff, i + 1, len);
      var r := ProcessLoop(f, e, input, inOff, out, outOff, i, len).value;
      assert r == ProcessLoop(f, e1, input, inOff, s, outOff, i + 1, len).value;
    }
  }

  /** The loop leaves every byte outside out[outOff + i .. outOff + len) as it was. */
  lemma {:induction false} ProcessLoopLeaves(f: BlockFunction, e: Engine, input: CByteArray, inOff: int,
                                             out: CByteArray, outOff: int, i: nat, len: nat, j: int)
    requires Sized(f) && Valid(e) && i <= len
    requires 0 <= i + inOff && inOff + len <= input.Length()
    requires 0 <= i + outOff && outOff + len <= out.Length() && !out.store.readOnly
    requires 0 <= j < out.Length() && !(outOff + i <= j < outOff + len)
    ensures var r := ProcessLoop(f, e, input, inOff, out, outOff, i, len);
            r.Ok? && r.value.1.Bytes()[j] == out.Bytes()[j]
    decreases len - i
  {
    ProcessLoopXors(f, e, input, inOff, out, outOff, i, len);
    if i < len {
      var g := SecureBytes.Get(input, i + inOff).value;
      var s := SecureBytes.Set(out, i + outOff, e.keyStream[e.index] ^ g).value;
      ProcessLoopLeaves(f, StepBy(f, e).0, input, inOff, s, outOff, i + 1, len, j);
    }
  }

  /** One pass of the loop over in-range indices and a writable output. */
  lemma ProcessLoopUnrolls(f: BlockFunction, e: Engine, input: CByteArray, inOff: int,
                           out: CByteArray, outOff: int, i: nat, len: nat)
    requires Sized(f) && Valid(e) && i < len
    requires 0 <= i + inOff && inOff + len <= input.Length()
    requires 0 <= i + outOff && outOff + len <= out.Length() && !out.store.readOnly
    ensures SecureBytes.Set(out, i + outOff, e.keyStream[e.index] ^ input.Bytes()[i + inOff]).Ok?
    ensures ProcessLoop(f, e, input, inOff, out, outOff, i, len)
            == ProcessLoop(f, StepBy(f, e).0, input, inOff,
                           SecureBytes.Set(out, i + outOff, e.keyStream[e.index] ^ input.Bytes()[i + inOff]).value,
                           outOff, i + 1, len)
  {
  }

  /** The first byte the loop writes: out[outOff + i] becomes the keystream byte at the
      index xored with in[inOff + i]. */
  lemma ProcessLoopWritesFirst(f: BlockFunction, e: Engine, input: CByteArray, inOff: int,
                               out: CByteArray, outOff: int, i: nat, len: nat)
    requires Sized(f) && Valid(e) && i < len
    requires 0 <= i + inOff && inOff + len <= input.Length()
    requires 0 <= i + outOff && outOff + len <= out.Length() && !out.store.readOnly
    ensures var r := ProcessLoop(f, e, input, inOff, out, outOff, i, len);
            r.Ok? && r.value.1.Bytes()[outOff + i] == e.keyStream[e.index] ^ input.Bytes()[i + inOff]
  {
    ProcessLoopUnrolls(f, e, input, inOff, out, outOff, i, len);
    var s := SecureBytes.Set(out, i + outOff, e.keyStream[e.index] ^ input.Bytes()[i + inOff]).value;
    ProcessLoopLeaves(f, StepBy(f, e).0, input, inOff, s, outOff, i + 1, len, outOff + i);
  }

  /** The byte the loop writes at out[j] for j in [outOff + i, outOff + len): the keystream
      byte of that step xored with the input byte at the same distance from inOff. */
  lemma {:induction false} ProcessLoopWrites(f: BlockFunction, e: Engine, input: CByteArray, inOff: int,
                                             out: CByteArray, outOff: int, i: nat, len: nat, j: int)
    requires Sized(f) && Valid(e) && i <= len
    requires 0 <= i + inOff && inOff + len <= input.Length()
    requires 0 <= i + outOff && outOff + len <= out.Length() && !out.store.readOnly
    requires outOff + i <= j < outOff + len
    ensures var r := ProcessLoop(f, e, input, inOff, out, outOff, i, len);
            r.Ok? && r.value.1.Bytes()[j] == NthKey(f, e, j - outOff - i) ^ input.Bytes()[j - outOff + inOff]
    decreases len - i
  {
    if j == outOff + i {
      ProcessLoopWritesFirst(f, e, input, inOff, out, outOff, i, len);
    } else {
      ProcessLoopUnrolls(f, e, input, inOff, out, outOff, i, len);
      var s := SecureBytes.Set(out, i + outOff, e.keyStream[e.index] ^ input.Bytes()[i + inOff]).value;
      ProcessLoopWrites(f, StepBy(f, e).0, input, inOff, s, outOff, i + 1, len, j);
    }
  }

  // processBytes

  /** processBytes(in, inOff, len, out, outOff) for a block function f. The four overloads
      (byte[] or CByteArray for the input and for the output) share this body; a Java byte[] is
      a CByteArray that is not read-only. The range checks add in 32 bits, so an offset plus
      length that wraps negative passes them and the loop fails on the first bad index
      instead. The limit counter is advanced by len before its test, which is taken as intended
      (2^70 bytes). The count returned is len. */
  function ProcessBytesBy(f: BlockFunction, e: Engine, input: CByteArray, inOff: int32, len: int32,
                          out: CByteArray, outOff: int32): (r: Result<(Engine, CByteArray, int32)>)
    requires Sized(f) && Valid(e)
    ensures !e.initialised ==> r == Err(IllegalState)
    ensures r.Ok? ==> Valid(r.value.0) && r.value.2 == len && r.value.1.Length() == out.Length()
    ensures r.Ok? ==> r.value.0.limit == LimitExceededByIntended(e.limit, len).0
  {
    (:- Need(e.initialised, IllegalState);
    :- Need(IntAdd(inOff, len) <= input.Length(), DataLength);
    :- Need(IntAdd(outOff, len) <= out.Length(), OutputLength);
    var (limit, exceeded) := LimitExceededByIntended(e.limit, len);
    :- Need(!exceeded, MaxBytesExceeded);
    var (e1, out1) :- ProcessLoop(f, e.(limit := limit), input, inOff, out, outOff, 0, if len < 0 then 0 else len);
    Ok((e1, out1, len)))
  }

  /** The engine's processBytes: the Salsa20 block function. */
  function ProcessBytes(e: Engine, input: CByteArray, inOff: int32, len: int32, out: CByteArray, outOff: int32)
    : (r: Result<(Engine, CByteArray, int32)>)
    requires Valid(e)
    ensures Sized(SALSA) && r == ProcessBytesBy(SALSA, e, input, inOff, len, out, outOff)
  {
    SalsaSized();
    ProcessBytesBy(SALSA, e, input, inOff, len, out, outOff)
  }

  /** The checks in their order, and success exactly when every check passes and the loop
      touches only indices in range of a writable output. */
  lemma ProcessBytesSucceeds(f: BlockFunction, e: Engine, input: CByteArray, inOff: int32, len: int32,
                             out: CByteArray, outOff: int32)
    requires Sized(f) && Valid(e) && e.initialised
    ensures var r := ProcessBytesBy(f, e, input, inOff, len, out, outOff);
            (IntAdd(inOff, len) > input.Length() ==> r == Err(DataLength))
            && (IntAdd(inOff, len) <= input.Length() && IntAdd(outOff, len) > out.Length() ==> r == Err(OutputLength))
            && (IntAdd(inOff, len) <= input.Length() && IntAdd(outOff, len) <= out.Length() && LimitExceededByIntended(e.limit, len).1
                ==> r == Err(MaxBytesExceeded))
    ensures ProcessBytesBy(f, e, input, inOff, len, out, outOff).Ok? <==>
              IntAdd(inOff, len) <= input.Length() && IntAdd(outOff, len) <= out.Length()
              && !LimitExceededByIntended(e.limit, len).1
              && (len <= 0 || (0 <= inOff && inOff + len <= input.Length()
                               && 0 <= outOff && outOff + len <= out.Length() && !out.store.readOnly))
  {
    var n: nat := if len < 0 then 0 else len;
    ProcessLoopSucceeds(f, e.(limit := LimitExceededByIntended(e.limit, len).0), input, inOff, out, outOff, 0, n);
  }

  /** Once the checks pass, processBytes is the loop from 0 to len over the engine with its
      limit counter advanced. */
  lemma ProcessBytesRunsLoop(f: BlockFunction, e: Engine, input: CByteArray, inOff: int32, len: int32,
                             out: CByteArray, outOff: int32)
    requires Sized(f) && Valid(e) && e.initialised && 0 <= len
    requires 0 <= inOff && inOff + len <= input.Length() && 0 <= outOff && outOff + len <= out.Length()
    requires !LimitExceededByIntended(e.limit, len).1
    ensures var l := ProcessLoop(f, e.(limit := LimitExceededByIntended(e.limit, len).0), input, inOff, out, outOff, 0, len);
            ProcessBytesBy(f, e, input, inOff, len, out, outOff)
            == if l.Ok? then Ok((l.value.0, l.value.1, len)) else Err(l.error)
  {
  }

  /** The conditions under which processBytes encrypts: an initialised engine keyed by w,
      ranges inside both buffers, a writable output, and fewer than 2^70 bytes counted after
      this call. */
  predicate CanProcess(f: BlockFunction, e: Engine, w: seq<int32>, input: CByteArray, inOff: int32, len: int32,
                       out: CByteArray, outOff: int32)
  {
    KeyedBy(f, e, w) && e.initialised
    && 0 <= inOff && 0 <= len && inOff + len <= input.Length()
    && 0 <= outOff && outOff + len <= out.Length() && !out.store.readOnly
    && Total(e.limit) + len < TWO_70
  }

  /** Under those conditions the call succeeds, the engine moves len bytes on with the same
      key, and the count returned is len. */
  lemma ProcessBytesAdvances(f: BlockFunction, e: Engine, w: seq<int32>, input: CByteArray, inOff: int32, len: int32,
                             out: CByteArray, outOff: int32)
    requires Sized(f) && CanProcess(f, e, w, input, inOff, len, out, outOff)
    ensures var r := ProcessBytesBy(f, e, input, inOff, len, out, outOff);
            r.Ok? && r.value.2 == len && KeyedBy(f, r.value.0, w)
            && Position(r.value.0) == Plus70(Position(e), len)
            && r.value.0.rounds == e.rounds && r.value.0.initialised
  {
    IntendedLimitQuietBelow(e.limit, len);
    ProcessBytesRunsLoop(f, e, input, inOff, len, out, outOff);
    var e1 := e.(limit := LimitExceededByIntended(e.limit, len).0);
    ProcessLoopXors(f, e1, input, inOff, out, outOff, 0, len);
    RunAdvances(f, e1, w, len);
  }

  /** Byte k of the range: out[outOff + k] becomes the keystream byte at the engine's position
      plus k xored with in[inOff + k]. */
  lemma ProcessBytesWrites(f: BlockFunction, e: Engine, w: seq<int32>, input: CByteArray, inOff: int32, len: int32,
                           out: CByteArray, outOff: int32, k: int)
    requires Sized(f) && CanProcess(f, e, w, input, inOff, len, out, outOff) && 0 <= k < len
    ensures var r := ProcessBytesBy(f, e, input, inOff, len, out, outOff);
            r.Ok? && r.value.1.Bytes()[outOff + k]
                     == KeyByte(f, e.rounds, w, Plus70(Position(e), k)) ^ input.Bytes()[inOff + k]
  {
    IntendedLimitQuietBelow(e.limit, len);
    ProcessBytesRunsLoop(f, e, input, inOff, len, out, outOff);
    var e1 := e.(limit := LimitExceededByIntended(e.limit, len).0);
    ProcessLoopWrites(f, e1, input, inOff, out, outOff, 0, len, outOff + k);
    NthKeyFollowsPosition(f, e1, w, k);
  }

  /** Bytes of the output outside the range keep their value. */
  lemma ProcessBytesLeaves(f: BlockFunction, e: Engine, w: seq<int32>, input: CByteArray, inOff: int32, len: int32,
                           out: CByteArray, outOff: int32, j: int)
    requires Sized(f) && CanProcess(f, e, w, input, inOff, len, out, outOff)
    requires 0 <= j < out.Length() && !(outOff <= j < outOff + len)
    ensures var r := ProcessBytesBy(f, e, input, inOff, len, out, outOff);
            r.Ok? && r.value.1.Bytes()[j] == out.Bytes()[j]
  {
    IntendedLimitQuietBelow(e.limit, len);
    var e1 := e.(limit := LimitExceededByIntended(e.limit, len).0);
    ProcessLoopLeaves(f, e1, input, inOff, out, outOff, 0, len, j);
  }

  lemma XorCancels(k: bv8, b: bv8)
    ensures k ^ (k ^ b) == b
  {
  }

  /** Decryption: a second engine with the same key, round count and position turns the
      ciphertext written by the first back into the plaintext. */
  lemma ProcessBytesRoundTrip(f: BlockFunction, e1: Engine, e2: Engine, w: seq<int32>,
                              input: CByteArray, inOff: int32, len: int32,
                              out1: CByteArray, outOff1: int32, out2: CByteArray, outOff2: int32, k: int)
    requires Sized(f) && CanProcess(f, e1, w, input, inOff, len, out1, outOff1) && 0 <= k < len
    requires KeyedBy(f, e2, w) && e2.initialised && e2.rounds == e1.rounds && Position(e2) == Position(e1)
    requires 0 <= outOff2 && outOff2 + len <= out2.Length() && !out2.store.readOnly
    requires Total(e2.limit) + len < TWO_70
    ensures var r1 := ProcessBytesBy(f, e1, input, inOff, len, out1, outOff1);
            r1.Ok? && var r2 := ProcessBytesBy(f, e2, r1.value.1, outOff1, len, out2, outOff2);
            r2.Ok? && r2.value.1.Bytes()[outOff2 + k] == input.Bytes()[inOff + k]
  {
    ProcessBytesWrites(f, e1, w, input, inOff, len, out1, outOff1, k);
    var c := ProcessBytesBy(f, e1, input, inOff, len, out1, outOff1).value.1;
    ProcessBytesWrites(f, e2, w, c, outOff1, len, out2, outOff2, k);
    XorCancels(KeyByte(f, e1.rounds, w, Plus70(Position(e1), k)), input.Bytes()[inOff + k]);
  }

  // returnByte

  /** returnByte(in): the limit counter is advanced by one and tested (2^70 bytes, as
      intended), then one step. It does not check that the engine was initialised. */
  function ReturnByteBy(f: BlockFunction, e: Engine, b: bv8): (r: Result<(Engine, bv8)>)
    requires Sized(f) && Valid(e)
    ensures r.Err? <==> LimitExceededIntended(e.limit).1
    ensures r.Err? ==> r.error == MaxBytesExceeded
    ensures r.Ok? ==> Valid(r.value.0) && r.value.0.limit == LimitExceededIntended(e.limit).0
  {
    var (limit, exceeded) := LimitExceededIntended(e.limit);
    :- Need(!exceeded, MaxBytesExceeded);
    var (e1, key) := StepBy(f, e.(limit := limit));
    Ok((e1, key ^ b))
  }

  /** Below the limit returnByte xors the keystream byte at the engine's position into its
      argument and moves the position by one, keeping the key. */
  lemma ReturnByteFollowsPosition(f: BlockFunction, e: Engine, w: seq<int32>, b: bv8)
    requires Sized(f) && KeyedBy(f, e, w) && Total(e.limit) + 1 < TWO_70
    ensures var r := ReturnByteBy(f, e, b);
            r.Ok? && r.value.1 == KeyByte(f, e.rounds, w, Position(e)) ^ b
            && KeyedBy(f, r.value.0, w) && Position(r.value.0) == Plus70(Position(e), 1)
  {
    IntendedByteLimitAt2To70(e.limit);
    StepFollowsPosition(f, e.(limit := LimitExceededIntended(e.limit).0), w);
  }
}
