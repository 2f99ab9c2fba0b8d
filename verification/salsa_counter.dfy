/** The 64-bit block counter of the Salsa20 engine, kept in state words 8 (low half) and 9
    (high half) of a CIntArray, and the operations Salsa20Engine performs on it. */
module SalsaCounter {
  import opened Errors
  import opened JavaInt
  import opened SecureInts

  const WORDS: nat := 16
  const LOW: nat := 8
  const HIGH: nat := 9

  /** The engine state array: sixteen writable words. */
  predicate Block16(st: CIntArray) {
    !st.readOnly && |st.words| == WORDS
  }

  /** On a sixteen-word array index k is in range and addresses element k. */
  lemma At(st: CIntArray, k: int)
    requires Block16(st) && 0 <= k < WORDS
    ensures InRange(st, k) && Element(st, k) == k
  {
    IndexInRange(st, k);
  }

  /** The words other than the counter are the same in both arrays. */
  predicate SameOutsideCounter(a: seq<int32>, b: seq<int32>) {
    |a| == |b| == WORDS && forall j :: 0 <= j < WORDS && j != LOW && j != HIGH ==> a[j] == b[j]
  }

  /** getCounter() read as an unsigned 64-bit number. */
  function Counter(st: CIntArray): (c: nat)
    requires |st.words| == WORDS
    ensures c < TWO_64
  {
    Unsigned(st.words[HIGH]) * TWO_32 + Unsigned(st.words[LOW])
  }

  // The CIntArray operations at an element of a sixteen-word array, where they cannot fail.

  function SetAt(st: CIntArray, k: int, v: int32): (r: CIntArray)
    requires Block16(st) && 0 <= k < WORDS
    ensures Block16(r) && UpdatedAt(r.words, st.words, k, v)
  {
    At(st, k);
    Set(st, k, v).value
  }

  function AddAt(st: CIntArray, k: int, v: int32): (r: CIntArray)
    requires Block16(st) && 0 <= k < WORDS
    ensures Block16(r) && UpdatedAt(r.words, st.words, k, v)
  {
    At(st, k);
    Add(st, k, v).value
  }

  function AddSumAt(st: CIntArray, k: int, v: int32): (r: CIntArray)
    requires Block16(st) && 0 <= k < WORDS
    ensures Block16(r) && UpdatedAt(r.words, st.words, k, IntAdd(st.words[k], v))
  {
    At(st, k);
    AddSum(st, k, v).value
  }

  function SubtractAt(st: CIntArray, k: int, v: int32): (r: CIntArray)
    requires Block16(st) && 0 <= k < WORDS
    ensures Block16(r) && UpdatedAt(r.words, st.words, k, IntSub(st.words[k], v))
  {
    At(st, k);
    Subtract(st, k, v).value
  }

  function IncrementAt(st: CIntArray, k: int): (r: CIntArray)
    requires Block16(st) && 0 <= k < WORDS
    ensures Block16(r) && UpdatedAt(r.words, st.words, k, IntAdd(st.words[k], 1))
  {
    At(st, k);
    Increment(st, k).value
  }

  function IncrementAndGetAt(st: CIntArray, k: int): (r: (CIntArray, int32))
    requires Block16(st) && 0 <= k < WORDS
    ensures Block16(r.0) && r.1 == IntAdd(st.words[k], 1) && UpdatedAt(r.0.words, st.words, k, r.1)
  {
    At(st, k);
    IncrementAndGet(st, k).value
  }

  function DecrementAt(st: CIntArray, k: int): (r: CIntArray)
    requires Block16(st) && 0 <= k < WORDS
    ensures Block16(r) && UpdatedAt(r.words, st.words, k, IntSub(st.words[k], 1))
  {
    At(st, k);
    Decrement(st, k).value
  }

  function DecrementAndGetAt(st: CIntArray, k: int): (r: (CIntArray, int32))
    requires Block16(st) && 0 <= k < WORDS
    ensures Block16(r.0) && r.1 == IntSub(st.words[k], 1) && UpdatedAt(r.0.words, st.words, k, r.1)
  {
    At(st, k);
    DecrementAndGet(st, k).value
  }

  /** resetCounter(): both counter words become zero. */
  function ResetCounter(st: CIntArray): (r: CIntArray)
    requires Block16(st)
    ensures Block16(r) && Counter(r) == 0 && SameOutsideCounter(r.words, st.words)
  {
    SetAt(SetAt(st, LOW, 0), HIGH, 0)
  }

  /** advanceCounter(): the low word is incremented and a wrap to zero carries into the high word. */
  function AdvanceCounter(st: CIntArray): (r: CIntArray)
    requires Block16(st)
    ensures Block16(r) && SameOutsideCounter(r.words, st.words)
  {
    var (s1, v) := IncrementAndGetAt(st, LOW);
    if v == 0 then IncrementAt(s1, HIGH) else s1
  }

  /** The counter goes up by one, modulo 2^64. */
  lemma AdvanceCounterIncrements(st: CIntArray)
    requires Block16(st)
    ensures Counter(st) + 1 < TWO_64 ==> Counter(AdvanceCounter(st)) == Counter(st) + 1
    ensures Counter(st) + 1 == TWO_64 ==> Counter(AdvanceCounter(st)) == 0
  {
    var w8 := st.words[LOW];
    var w9 := st.words[HIGH];
    UnsignedIntAdd(w8, 1);
    UnsignedIntAdd(w9, 1);
  }

  /** retreatCounter(): refused at zero; otherwise the low word is decremented and a wrap to
      -1 borrows from the high word. */
  function RetreatCounter(st: CIntArray): (r: Result<CIntArray>)
    requires Block16(st)
    ensures r.Err? <==> Counter(st) == 0
    ensures r.Err? ==> r.error == IllegalState
    ensures r.Ok? ==> Block16(r.value) && SameOutsideCounter(r.value.words, st.words)
  {
    if st.words[LOW] == 0 && st.words[HIGH] == 0 then Err(IllegalState)
    else
      var (s1, v) := DecrementAndGetAt(st, LOW);
      Ok(if v == -1 then DecrementAt(s1, HIGH) else s1)
  }

  /** The counter goes down by one. */
  lemma RetreatCounterDecrements(st: CIntArray)
    requires Block16(st) && Counter(st) > 0
    ensures RetreatCounter(st).Ok? && Counter(RetreatCounter(st).value) == Counter(st) - 1
  {
    UnsignedIntSub(st.words[LOW], 1);
    UnsignedIntSub(st.words[HIGH], 1);
  }

  /** Stepping forward and back returns to the same array. */
  lemma RetreatUndoesAdvance(st: CIntArray)
    requires Block16(st) && Counter(st) + 1 < TWO_64
    ensures RetreatCounter(AdvanceCounter(st)) == Ok(st)
  {
    AdvanceCounterIncrements(st);
    var a := AdvanceCounter(st);
    RetreatCounterDecrements(a);
    var b := RetreatCounter(a).value;
    CounterDetermines(b, st);
  }

  /** Two arrays that agree outside the counter and hold the same counter are equal. */
  lemma CounterDetermines(a: CIntArray, b: CIntArray)
    requires Block16(a) && Block16(b) && SameOutsideCounter(a.words, b.words) && Counter(a) == Counter(b)
    ensures a == b
  {
    UnsignedDetermines(a.words[LOW], b.words[LOW]);
    UnsignedDetermines(a.words[HIGH], b.words[HIGH]);
    assert a.words == b.words;
  }

  lemma UnsignedDetermines(x: int32, y: int32)
    requires Unsigned(x) == Unsigned(y)
    ensures x == y
  {
  }

  /** The long argument of advanceCounter/retreatCounter split into its halves:
      `(int)(diff >>> 32)` and `(int)diff`. */
  function HighHalf(diff: int64): int32 {
    Signed(UnsignedLong(diff) / TWO_32)
  }

  function LowHalf(diff: int64): int32 {
    Signed(UnsignedLong(diff) % TWO_32)
  }

  /** diff read as an unsigned 64-bit number is the two halves put back together. */
  lemma Halves(diff: int64)
    ensures Unsigned(HighHalf(diff)) * TWO_32 + Unsigned(LowHalf(diff)) == UnsignedLong(diff)
  {
  }

  /** advanceCounter(long) AS WRITTEN: both halves go through CIntArray.add, which stores its
      argument instead of adding it, and the carry test compares the low word as a signed int. */
  function AdvanceCounterByAsWritten(st: CIntArray, diff: int64): (r: CIntArray)
    requires Block16(st)
    ensures Block16(r) && SameOutsideCounter(r.words, st.words)
  {
    var hi := HighHalf(diff);
    var lo := LowHalf(diff);
    var s1 := if hi > 0 then AddAt(st, HIGH, hi) else st;
    var oldState := s1.words[LOW];
    var s2 := AddAt(s1, LOW, lo);
    if oldState != 0 && s2.words[LOW] < oldState then IncrementAt(s2, HIGH) else s2
  }

  /** advanceCounter(long) as intended: the halves are added (add as its name says), the high
      half whenever it is non-zero, and the carry is detected on the unsigned low word. */
  function AdvanceCounterBy(st: CIntArray, diff: int64): (r: CIntArray)
    requires Block16(st)
    ensures Block16(r) && SameOutsideCounter(r.words, st.words)
  {
    var hi := HighHalf(diff);
    var lo := LowHalf(diff);
    var s1 := if hi != 0 then AddSumAt(st, HIGH, hi) else st;
    var oldState := s1.words[LOW];
    var s2 := AddSumAt(s1, LOW, lo);
    if oldState != 0 && Unsigned(s2.words[LOW]) < Unsigned(oldState) then IncrementAt(s2, HIGH) else s2
  }

  /** The intended advance moves the counter by diff (read as unsigned), modulo 2^64. */
  lemma AdvanceCounterByAdds(st: CIntArray, diff: int64)
    requires Block16(st)
    ensures var t := Counter(st) + UnsignedLong(diff);
            Counter(AdvanceCounterBy(st, diff)) == if t < TWO_64 then t else t - TWO_64
  {
    var hi := HighHalf(diff);
    var lo := LowHalf(diff);
    Halves(diff);
    var s1 := if hi != 0 then AddSumAt(st, HIGH, hi) else st;
    UnsignedIntAdd(st.words[HIGH], hi);
    var oldState := s1.words[LOW];
    var s2 := AddSumAt(s1, LOW, lo);
    UnsignedIntAdd(oldState, lo);
    UnsignedIntAdd(s2.words[HIGH], 1);
    var r := AdvanceCounterBy(st, diff);
    var h0 := Unsigned(st.words[HIGH]);
    var l0 := Unsigned(st.words[LOW]);
    var uh := Unsigned(hi);
    var ul := Unsigned(lo);
    var h1 := if h0 + uh < TWO_32 then h0 + uh else h0 + uh - TWO_32;
    assert Unsigned(s1.words[HIGH]) == h1;
    var carry := if l0 + ul >= TWO_32 then 1 else 0;
    var h2 := if h1 + carry < TWO_32 then h1 + carry else h1 + carry - TWO_32;
    assert Unsigned(r.words[LOW]) == l0 + ul - carry * TWO_32;
    assert Unsigned(r.words[HIGH]) == h2;
  }

  /** On a fresh counter the two versions agree: each add lands on a zero word, and with the
      low word zero beforehand the carry test is skipped. */
  lemma AsWrittenAgreesFromZero(st: CIntArray, diff: int64)
    requires Block16(st) && Counter(st) == 0 && diff >= 0
    ensures AdvanceCounterByAsWritten(st, diff) == AdvanceCounterBy(st, diff)
  {
    assert st.words[LOW] == 0 && st.words[HIGH] == 0;
    var a := AdvanceCounterByAsWritten(st, diff);
    var b := AdvanceCounterBy(st, diff);
    assert a.words == b.words;
  }

  /** The defect: with the counter at one block, advancing by one leaves it at one, because
      the low word is overwritten with 1 rather than increased to 2. */
  lemma AdvanceByOneFromOne(st: CIntArray)
    requires Block16(st) && st.words[LOW] == 1 && st.words[HIGH] == 0
    ensures Counter(st) == 1
    ensures Counter(AdvanceCounterByAsWritten(st, 1)) == 1
    ensures Counter(AdvanceCounterBy(st, 1)) == 2
  {
    AdvanceCounterByAdds(st, 1);
  }

  /** From 2^31 - 1, advancing by one: the intended advance gives 2^31, while the code as
      written gives 2^32 + 1. This is add's defect: word 8 becomes 1, and since 1 is below the
      old value under either reading, the carry follows. */
  lemma SignedCarryMisfires(st: CIntArray)
    requires Block16(st) && st.words[LOW] == INT_MAX && st.words[HIGH] == 0
    ensures Counter(AdvanceCounterBy(st, 1)) == 0x8000_0000
    ensures Counter(AdvanceCounterByAsWritten(st, 1)) == TWO_32 + 1
  {
    AdvanceCounterByAdds(st, 1);
  }

  /** advanceCounter(long) with add repaired but the rest as written: the high half only when
      `hi > 0`, and the carry test `oldState != 0 && get(8) < oldState` on signed ints. It
      shows the defect of the carry test on its own. */
  function AdvanceCounterBySignedTest(st: CIntArray, diff: int64): (r: CIntArray)
    requires Block16(st)
    ensures Block16(r) && SameOutsideCounter(r.words, st.words)
  {
    var hi := HighHalf(diff);
    var lo := LowHalf(diff);
    var s1 := if hi > 0 then AddSumAt(st, HIGH, hi) else st;
    var oldState := s1.words[LOW];
    var s2 := AddSumAt(s1, LOW, lo);
    if oldState != 0 && s2.words[LOW] < oldState then IncrementAt(s2, HIGH) else s2
  }

  /** The signed test carries where nothing wrapped: from word 8 = INT_MAX the sum 2^31 is
      negative as an int, so one step lands at 2^32 + 2^31 instead of 2^31. */
  lemma SignedTestCarriesFromIntMax(st: CIntArray)
    requires Block16(st) && st.words[LOW] == INT_MAX && st.words[HIGH] == 0
    ensures Counter(AdvanceCounterBySignedTest(st, 1)) == TWO_32 + 0x8000_0000
    ensures Counter(AdvanceCounterBy(st, 1)) == 0x8000_0000
  {
    AdvanceCounterByAdds(st, 1);
    var r := AdvanceCounterBySignedTest(st, 1);
    assert r.words[LOW] == INT_MIN && r.words[HIGH] == 1;
  }

  /** The signed test misses a real wrap: from word 8 = -1 (0xFFFFFFFF) the sum 0 is above -1
      as an int, so one step from 2^32 - 1 lands at 0 instead of 2^32. */
  lemma SignedTestMissesFromMinusOne(st: CIntArray)
    requires Block16(st) && st.words[LOW] == -1 && st.words[HIGH] == 0
    ensures Counter(st) == TWO_32 - 1
    ensures Counter(AdvanceCounterBySignedTest(st, 1)) == 0
    ensures Counter(AdvanceCounterBy(st, 1)) == TWO_32
  {
    AdvanceCounterByAdds(st, 1);
    var r := AdvanceCounterBySignedTest(st, 1);
    assert r.words[LOW] == 0 && r.words[HIGH] == 0;
  }

  /** retreatCounter(long): the high half first, refused if it exceeds the high word; then
      the low half, borrowing one from the high word when needed, refused if there is none. */
  function RetreatCounterBy(st: CIntArray, diff: int64): (r: Result<CIntArray>)
    requires Block16(st)
    ensures r.Err? ==> r.error == IllegalState
    ensures r.Ok? ==> Block16(r.value) && SameOutsideCounter(r.value.words, st.words)
  {
    var hi := HighHalf(diff);
    var lo := LowHalf(diff);
    var s1 :- if hi != 0 then
                (if Unsigned(st.words[HIGH]) >= Unsigned(hi) then Ok(SubtractAt(st, HIGH, hi)) else Err(IllegalState))
              else Ok(st);
    if Unsigned(s1.words[LOW]) >= Unsigned(lo) then Ok(SubtractAt(s1, LOW, lo))
    else if s1.words[HIGH] != 0 then Ok(SubtractAt(DecrementAt(s1, HIGH), LOW, lo))
    else Err(IllegalState)
  }

  /** Retreating by a non-negative diff succeeds exactly when the counter is at least diff,
      and then lowers it by diff. */
  lemma RetreatCounterBySubtracts(st: CIntArray, diff: int64)
    requires Block16(st) && diff >= 0
    ensures RetreatCounterBy(st, diff).Ok? <==> Counter(st) >= diff
    ensures RetreatCounterBy(st, diff).Ok? ==> Counter(RetreatCounterBy(st, diff).value) == Counter(st) - diff
  {
    var hi := HighHalf(diff);
    var lo := LowHalf(diff);
    Halves(diff);
    UnsignedIntSub(st.words[HIGH], hi);
    var h0 := Unsigned(st.words[HIGH]);
    var l0 := Unsigned(st.words[LOW]);
    if hi == 0 || h0 >= Unsigned(hi) {
      var s1 := if hi != 0 then SubtractAt(st, HIGH, hi) else st;
      assert Unsigned(s1.words[HIGH]) == h0 - Unsigned(hi);
      UnsignedIntSub(s1.words[LOW], lo);
      UnsignedIntSub(s1.words[HIGH], 1);
      if l0 < Unsigned(lo) && s1.words[HIGH] != 0 {
        var s2 := DecrementAt(s1, HIGH);
        UnsignedIntSub(s2.words[LOW], lo);
      }
    }
  }

  /** The counter words set to the halves of c, every other word kept. */
  function WithCounter(words: seq<int32>, c: nat): (r: seq<int32>)
    requires |words| == WORDS && c < TWO_64
    ensures SameOutsideCounter(r, words)
    ensures r[LOW] == Signed(c % TWO_32) && r[HIGH] == Signed(c / TWO_32)
  {
    words[LOW := Signed(c % TWO_32)][HIGH := Signed(c / TWO_32)]
  }

  /** Every array is its own words with its own counter written in. */
  lemma WithOwnCounter(st: CIntArray)
    requires Block16(st)
    ensures WithCounter(st.words, Counter(st)) == st.words
  {
    var r := WithCounter(st.words, Counter(st));
    UnsignedDetermines(r[LOW], st.words[LOW]);
    UnsignedDetermines(r[HIGH], st.words[HIGH]);
  }

  /** Arrays that agree outside the counter are determined by it. */
  lemma WordsFromCounter(a: CIntArray, b: CIntArray)
    requires Block16(a) && Block16(b) && SameOutsideCounter(a.words, b.words)
    ensures a.words == WithCounter(b.words, Counter(a))
  {
    WithOwnCounter(a);
    assert WithCounter(a.words, Counter(a)) == WithCounter(b.words, Counter(a));
  }

  /** Writing a counter into arrays that agree outside the counter gives the same words. */
  lemma WithCounterOutside(a: seq<int32>, b: seq<int32>, c: nat)
    requires SameOutsideCounter(a, b) && c < TWO_64
    ensures WithCounter(a, c) == WithCounter(b, c)
  {
    var x := WithCounter(a, c);
    var y := WithCounter(b, c);
    assert forall j :: 0 <= j < WORDS ==> x[j] == y[j];
  }
}
