/** skip and seekTo of Salsa20Engine: moving the keystream position without producing bytes.
    A forward skip adds whole blocks to the counter through advanceCounter(long) and then
    moves the index; a backward skip takes whole blocks off through retreatCounter(long) and
    then steps back one byte at a time. Either way the keystream block is regenerated. */
module SalsaSkip {
  import opened Errors
  import opened JavaInt
  import opened SecureInts
  import opened SalsaCounter
  import opened SalsaEngine
  import opened SalsaStream

  // Forward

  /** The last part of a forward skip: rest < 64 bytes on from the index, advancing the
      counter once when the new index ((index + rest) & 63) falls below the old one. */
  function SkipRest(e: Engine, rest: nat): (r: Engine)
    requires Valid(e) && rest < BLOCK_BYTES
    ensures Valid(r) && SameOutsideCounter(r.state.words, e.state.words)
    ensures r == e.(index := r.index, state := r.state)
  {
    var index := (e.index + rest) % BLOCK_BYTES;
    if index < e.index then e.(index := index, state := AdvanceCounter(e.state)) else e.(index := index)
  }

  /** The branch for numberOfBytes >= 0: the whole blocks through advanceCounter(long), as the
      code has it when corrected is false and with the addition it intends when it is true,
      then the remaining bytes. */
  function SkipForward(e: Engine, n: int64, corrected: bool): (r: Engine)
    requires Valid(e) && n >= 0
    ensures Valid(r) && SameOutsideCounter(r.state.words, e.state.words)
    ensures r == e.(index := r.index, state := r.state)
  {
    if n >= BLOCK_BYTES then
      var count := n / BLOCK_BYTES;
      var st := if corrected then AdvanceCounterBy(e.state, count) else AdvanceCounterByAsWritten(e.state, count);
      SkipRest(e.(state := st), n - count * BLOCK_BYTES)
    else SkipRest(e, n)
  }

  /** Whole blocks and the remainder of a byte count. */
  lemma Blocks(n: nat)
    requires n < TWO_64
    ensures 0 <= n - n / BLOCK_BYTES * BLOCK_BYTES < BLOCK_BYTES && n / BLOCK_BYTES < TWO_64
  {
  }

  /** The remaining bytes move the position forward by rest. */
  lemma SkipRestMoves(e: Engine, rest: nat)
    requires Valid(e) && rest < BLOCK_BYTES
    ensures Position(SkipRest(e, rest)) == Plus70(Position(e), rest)
  {
    AdvanceCounterIncrements(e.state);
  }

  /** Adding count to the counter moves the position forward by count whole blocks. */
  lemma AdvanceBlocksMoves(e: Engine, count: int64)
    requires Valid(e) && 0 <= count && count * 64 <= TWO_70
    ensures Position(e.(state := AdvanceCounterBy(e.state, count))) == Plus70(Position(e), count * 64)
  {
    AdvanceCounterByAdds(e.state, count);
  }

  lemma SkipForwardSplits(e: Engine, n: int64)
    requires Valid(e) && n >= BLOCK_BYTES
    ensures SkipForward(e, n, true)
            == SkipRest(e.(state := AdvanceCounterBy(e.state, n / BLOCK_BYTES)), n - n / BLOCK_BYTES * BLOCK_BYTES)
  {
  }

  /** The intended forward skip moves the position forward by n, modulo 2^70. */
  lemma SkipForwardMoves(e: Engine, n: int64)
    requires Valid(e) && n >= 0
    ensures Position(SkipForward(e, n, true)) == Plus70(Position(e), n)
  {
    if n >= BLOCK_BYTES {
      var count := n / BLOCK_BYTES;
      var rest := n - count * BLOCK_BYTES;
      Blocks(n);
      var e1 := e.(state := AdvanceCounterBy(e.state, count));
      SkipForwardSplits(e, n);
      AdvanceBlocksMoves(e, count);
      SkipRestMoves(e1, rest);
      Plus70Composes(Position(e), count * 64, rest);
    } else {
      SkipRestMoves(e, n);
    }
  }

  /** The code as written, from block counter 1 and index 0 (position 64), skipping 64 bytes:
      add stores the block count 1 over the counter instead of adding it, so the position
      stays at 64 where 128 is meant. */
  lemma SkipAsWrittenStalls(e: Engine)
    requires Valid(e) && e.index == 0 && e.state.words[LOW] == 1 && e.state.words[HIGH] == 0
    ensures Position(e) == 64
    ensures Position(SkipForward(e, 64, false)) == 64
    ensures Position(SkipForward(e, 64, true)) == 128
  {
    AdvanceByOneFromOne(e.state);
  }

  // Backward

  /** The backward loop: steps single bytes back, each retreating the counter first when the
      index is 0; the index moves as (index - 1) & 63. */
  function StepBack(e: Engine, steps: nat): (r: Result<Engine>)
    requires Valid(e)
    ensures r.Err? ==> r.error == IllegalState
    ensures r.Ok? ==> Valid(r.value) && SameOutsideCounter(r.value.state.words, e.state.words)
    ensures r.Ok? ==> r.value == e.(index := r.value.index, state := r.value.state)
    decreases steps
  {
    if steps == 0 then Ok(e)
    else
      var st :- if e.index == 0 then RetreatCounter(e.state) else Ok(e.state);
      StepBack(e.(index := (e.index - 1) % BLOCK_BYTES, state := st), steps - 1)
  }

  /** One step back from a position above zero lands one lower. */
  lemma StepBackOnce(e: Engine)
    requires Valid(e)
    ensures StepBack(e, 1).Ok? <==> Position(e) >= 1
    ensures StepBack(e, 1).Ok? ==> Position(StepBack(e, 1).value) == Position(e) - 1
  {
    if e.index == 0 && Counter(e.state) > 0 {
      RetreatCounterDecrements(e.state);
    }
  }

  /** Stepping back succeeds exactly when the position is at least the number of steps, and
      then lowers it by that number. */
  lemma {:induction false} StepBackMoves(e: Engine, steps: nat)
    requires Valid(e)
    ensures StepBack(e, steps).Ok? <==> Position(e) >= steps
    ensures StepBack(e, steps).Ok? ==> Position(StepBack(e, steps).value) == Position(e) - steps
    decreases steps
  {
    if steps > 0 {
      StepBackOnce(e);
      var s1 := StepBack(e, 1);
      if s1.Ok? {
        assert StepBack(e, steps) == StepBack(s1.value, steps - 1);
        StepBackMoves(s1.value, steps - 1);
      }
    }
  }

  /** The branch for numberOfBytes < 0. remaining = -numberOfBytes overflows back to
      Long.MIN_VALUE for Long.MIN_VALUE, which is below 64 and runs the loop zero times. */
  function SkipBackward(e: Engine, n: int64): (r: Result<Engine>)
    requires Valid(e) && n < 0
    ensures r.Err? ==> r.error == IllegalState
    ensures r.Ok? ==> Valid(r.value) && SameOutsideCounter(r.value.state.words, e.state.words)
    ensures r.Ok? ==> r.value == e.(index := r.value.index, state := r.value.state)
  {
    var remaining := ToLong(-(n as int));
    if remaining >= BLOCK_BYTES then
      var count := remaining / BLOCK_BYTES;
      var st :- RetreatCounterBy(e.state, count);
      StepBack(e.(state := st), remaining - count * BLOCK_BYTES)
    else StepBack(e, if remaining < 0 then 0 else remaining)
  }

  /** Taking count whole blocks off succeeds exactly when the counter is at least count, and
      then lowers the position by count * 64. */
  lemma RetreatBlocksMoves(e: Engine, count: int64)
    requires Valid(e) && 0 <= count
    ensures RetreatCounterBy(e.state, count).Ok? <==> Counter(e.state) >= count
    ensures RetreatCounterBy(e.state, count).Ok? ==>
              Position(e.(state := RetreatCounterBy(e.state, count).value)) == Position(e) - count * 64
  {
    RetreatCounterBySubtracts(e.state, count);
  }

  /** With i < 64 below a whole block, the counter covers count blocks and the position covers
      the rest beyond them exactly when the position covers count * 64 + rest. */
  lemma BackArithmetic(c: nat, i: nat, count: nat, rest: nat)
    requires i < 64 && rest < 64
    ensures (c >= count && c * 64 + i - count * 64 >= rest) <==> c * 64 + i >= count * 64 + rest
  {
  }

  lemma SkipBackwardSplits(e: Engine, n: int64)
    requires Valid(e) && LONG_MIN < n <= -64
    ensures var st := RetreatCounterBy(e.state, -n / BLOCK_BYTES);
            SkipBackward(e, n)
            == if st.Ok? then StepBack(e.(state := st.value), -n - -n / BLOCK_BYTES * BLOCK_BYTES) else Err(st.error)
  {
    assert ToLong(-(n as int)) == -n;
  }

  /** A backward skip by -n succeeds exactly when the position is at least -n and then lowers
      it by -n. */
  lemma SkipBackwardMoves(e: Engine, n: int64)
    requires Valid(e) && LONG_MIN < n < 0
    ensures SkipBackward(e, n).Ok? <==> Position(e) >= -n
    ensures SkipBackward(e, n).Ok? ==> Position(SkipBackward(e, n).value) == Position(e) + n
  {
    if n <= -64 {
      SkipBackwardWhole(e, n);
    } else {
      assert SkipBackward(e, n) == StepBack(e, -n);
      StepBackMoves(e, -n);
    }
  }

  lemma SkipBackwardWhole(e: Engine, n: int64)
    requires Valid(e) && LONG_MIN < n <= -64
    ensures SkipBackward(e, n).Ok? <==> Position(e) >= -n
    ensures SkipBackward(e, n).Ok? ==> Position(SkipBackward(e, n).value) == Position(e) + n
  {
    var count := -n / BLOCK_BYTES;
    var rest := -n - count * BLOCK_BYTES;
    Blocks(-n);
    SkipBackwardSplits(e, n);
    RetreatBlocksMoves(e, count);
    BackArithmetic(Counter(e.state), e.index, count, rest);
    var st := RetreatCounterBy(e.state, count);
    if st.Ok? {
      var e1 := e.(state := st.value);
      StepBackMoves(e1, rest);
      assert SkipBackward(e, n) == StepBack(e1, rest);
    } else {
      assert SkipBackward(e, n).Err?;
    }
  }

  lemma NegatedLongMin()
    ensures ToLong(-(LONG_MIN as int)) == LONG_MIN
  {
  }

  /** skip(Long.MIN_VALUE) leaves the position where it was. */
  lemma SkipBackwardLongMin(e: Engine)
    requires Valid(e)
    ensures SkipBackward(e, LONG_MIN) == Ok(e)
  {
    NegatedLongMin();
  }

  // skip and seekTo

  /** skip(numberOfBytes) for a block function f: either branch, then generateKeyStream; the
      count returned is numberOfBytes. A failed backward skip is an error. */
  function SkipBy(f: BlockFunction, e: Engine, n: int64, corrected: bool): (r: Result<(Engine, int64)>)
    requires Sized(f) && Valid(e)
    ensures r.Ok? ==> Valid(r.value.0) && r.value.1 == n && r.value.0.keyStream == f(e.rounds, r.value.0.state.words)
    ensures r.Ok? ==> SameOutsideCounter(r.value.0.state.words, e.state.words)
    ensures r.Ok? ==> r.value.0 == e.(index := r.value.0.index, state := r.value.0.state, keyStream := r.value.0.keyStream)
  {
    var e1 :- if n >= 0 then Ok(SkipForward(e, n, corrected)) else SkipBackward(e, n);
    Ok((e1.(keyStream := f(e1.rounds, e1.state.words)), n))
  }

  /** The engine's skip, with advanceCounter(long) adding as intended. */
  function Skip(e: Engine, n: int64): (r: Result<(Engine, int64)>)
    requires Valid(e)
    ensures Sized(SALSA) && r == SkipBy(SALSA, e, n, true)
  {
    SalsaSized();
    SkipBy(SALSA, e, n, true)
  }

  /** The engine's skip as the code has it. */
  function SkipAsWritten(e: Engine, n: int64): (r: Result<(Engine, int64)>)
    requires Valid(e)
    ensures Sized(SALSA) && r == SkipBy(SALSA, e, n, false)
  {
    SalsaSized();
    SkipBy(SALSA, e, n, false)
  }

  /** A skip keeps the key and moves the position by n: forward always (modulo 2^70), back
      exactly when the position is at least -n; skip(Long.MIN_VALUE) stays put. So bytes
      processed after skip(n) are those processed from the position plus n. */
  lemma SkipMoves(f: BlockFunction, e: Engine, w: seq<int32>, n: int64)
    requires Sized(f) && KeyedBy(f, e, w)
    ensures var r := SkipBy(f, e, n, true);
            (n >= 0 ==> r.Ok? && Position(r.value.0) == Plus70(Position(e), n))
            && (LONG_MIN < n < 0 ==> (r.Ok? <==> Position(e) >= -n))
            && (LONG_MIN < n < 0 && r.Ok? ==> Position(r.value.0) == Position(e) + n)
            && (n == LONG_MIN ==> r.Ok? && Position(r.value.0) == Position(e))
            && (r.Ok? ==> KeyedBy(f, r.value.0, w))
  {
    if n >= 0 {
      SkipForwardMoves(e, n);
    } else if n == LONG_MIN {
      SkipBackwardLongMin(e);
    } else {
      SkipBackwardMoves(e, n);
    }
  }

  /** reset() for a block function f. */
  function ResetBy(f: BlockFunction, e: Engine): (r: Engine)
    requires Sized(f) && Valid(e)
    ensures Valid(r) && Position(r) == 0 && r.limit == NO_BYTES
    ensures SameOutsideCounter(r.state.words, e.state.words) && r.keyStream == f(e.rounds, r.state.words)
    ensures r == e.(index := r.index, state := r.state, keyStream := r.keyStream, limit := r.limit)
  {
    e.(index := 0, limit := NO_BYTES, state := ResetCounter(e.state), keyStream := f(e.rounds, ResetCounter(e.state).words))
  }

  /** seekTo(position): reset, then skip(position). */
  function SeekToBy(f: BlockFunction, e: Engine, p: int64, corrected: bool): (r: Result<(Engine, int64)>)
    requires Sized(f) && Valid(e)
    ensures r.Ok? ==> Valid(r.value.0) && r.value.1 == p && r.value.0.limit == NO_BYTES
  {
    SkipBy(f, ResetBy(f, e), p, corrected)
  }

  /** The engine's seekTo. */
  function SeekTo(e: Engine, p: int64): (r: Result<(Engine, int64)>)
    requires Valid(e)
    ensures Sized(SALSA) && r == SeekToBy(SALSA, e, p, true)
  {
    SalsaSized();
    SeekToBy(SALSA, e, p, true)
  }

  /** seekTo(p) lands at p for every p >= 0, and getPosition() then reports p; a negative p
      other than Long.MIN_VALUE is refused, since the reset position 0 cannot move back. */
  lemma SeekToLands(f: BlockFunction, e: Engine, w: seq<int32>, p: int64)
    requires Sized(f) && Valid(e) && SameOutsideCounter(e.state.words, w)
    ensures var r := SeekToBy(f, e, p, true);
            (p >= 0 ==> r.Ok? && Position(r.value.0) == p && GetPosition(r.value.0) == p && KeyedBy(f, r.value.0, w))
            && (LONG_MIN < p < 0 ==> r == Err(IllegalState))
  {
    var e0 := ResetBy(f, e);
    SkipMoves(f, e0, w, p);
  }

  /** From the reset position advanceCounter(long) writes onto zero words, so seekTo as the
      code has it agrees with the intended one. */
  lemma SeekToAsWrittenAgrees(f: BlockFunction, e: Engine, p: int64)
    requires Sized(f) && Valid(e)
    ensures SeekToBy(f, e, p, false) == SeekToBy(f, e, p, true)
  {
    var e0 := ResetBy(f, e);
    if p >= BLOCK_BYTES {
      AsWrittenAgreesFromZero(e0.state, p / BLOCK_BYTES);
    }
  }
}
