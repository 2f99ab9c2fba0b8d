/** The Salsa20 core function (Salsa20Engine.salsaCore): double rounds over a 16-word
    state followed by the feed-forward addition of the input. The 32 lines of a double round
    are listed as a table of steps in the order the code performs them. */
module SalsaCore {
  import opened Errors

  const STATE_WORDS: nat := 16

  /** The sixteen 32-bit words the core works on. */
  type State = x: seq<bv32> | |x| == STATE_WORDS
    witness [0, 0, 0, 0, 0, 0, 0, 0, 0, 0, 0, 0, 0, 0, 0, 0]

  /** One line of the round: x[target] ^= rotl(x[a] + x[b], shift). */
  datatype Step = Step(target: nat, a: nat, b: nat, shift: nat)

  predicate WellFormed(s: Step) {
    s.target < STATE_WORDS && s.a < STATE_WORDS && s.b < STATE_WORDS
    && s.target != s.a && s.target != s.b && 0 < s.shift < 32
  }

  predicate AllWellFormed(steps: seq<Step>) {
    forall i :: 0 <= i < |steps| ==> WellFormed(steps[i])
  }

  /** The column round (x4, x8, x12, x0 from the first column, then the other three columns)
      followed by the row round. */
  const DOUBLE_ROUND: seq<Step> := [
    Step(4, 0, 12, 7), Step(8, 4, 0, 9), Step(12, 8, 4, 13), Step(0, 12, 8, 18),
    Step(9, 5, 1, 7), Step(13, 9, 5, 9), Step(1, 13, 9, 13), Step(5, 1, 13, 18),
    Step(14, 10, 6, 7), Step(2, 14, 10, 9), Step(6, 2, 14, 13), Step(10, 6, 2, 18),
    Step(3, 15, 11, 7), Step(7, 3, 15, 9), Step(11, 7, 3, 13), Step(15, 11, 7, 18),
    Step(1, 0, 3, 7), Step(2, 1, 0, 9), Step(3, 2, 1, 13), Step(0, 3, 2, 18),
    Step(6, 5, 4, 7), Step(7, 6, 5, 9), Step(4, 7, 6, 13), Step(5, 4, 7, 18),
    Step(11, 10, 9, 7), Step(8, 11, 10, 9), Step(9, 8, 11, 13), Step(10, 9, 8, 18),
    Step(12, 15, 14, 7), Step(13, 12, 15, 9), Step(14, 13, 12, 13), Step(15, 14, 13, 18)
  ]

  /** Every line of the round writes a word it does not read. */
  lemma DoubleRoundWellFormed()
    ensures |DOUBLE_ROUND| == 32 && AllWellFormed(DOUBLE_ROUND)
  {
  }

  /** Integer.rotateLeft(a + b, n) with 32-bit wrapping addition. */
  function Mix(a: bv32, b: bv32, n: nat): bv32
    requires n < 32
  {
    (a + b).RotateLeft(n)
  }

  function ApplyStep(x: State, s: Step): (r: State)
    requires WellFormed(s)
    ensures r[s.target] == x[s.target] ^ Mix(x[s.a], x[s.b], s.shift)
    ensures forall j :: 0 <= j < STATE_WORDS && j != s.target ==> r[j] == x[j]
  {
    x[s.target := x[s.target] ^ Mix(x[s.a], x[s.b], s.shift)]
  }

  /** The steps in order. The state is part of the termination measure only so that the
      verifier unfolds the steps on demand rather than eagerly for the fixed table. */
  function Apply(x: State, steps: seq<Step>): (r: State)
    requires AllWellFormed(steps)
    decreases |steps|, x
  {
    if |steps| == 0 then x else Apply(ApplyStep(x, steps[0]), steps[1..])
  }

  /** The steps undone, last first. */
  function Unapply(y: State, steps: seq<Step>): (r: State)
    requires AllWellFormed(steps)
    decreases |steps|, y
  {
    if |steps| == 0 then y else ApplyStep(Unapply(y, steps[1..]), steps[0])
  }

  lemma XorTwice(v: bv32, k: bv32)
    ensures (v ^ k) ^ k == v
  {
  }

  lemma Extensional(a: State, b: State)
    requires forall j :: 0 <= j < STATE_WORDS ==> a[j] == b[j]
    ensures a == b
  {
  }

  /** A step reads only words it does not write, so applying it twice restores the state. */
  lemma StepSelfInverse(x: State, s: Step)
    requires WellFormed(s)
    ensures ApplyStep(ApplyStep(x, s), s) == x
  {
    XorTwice(x[s.target], Mix(x[s.a], x[s.b], s.shift));
    Extensional(ApplyStep(ApplyStep(x, s), s), x);
  }

  /** Undoing the steps after doing them gives the original state back. */
  lemma {:induction false} UnapplyApply(x: State, steps: seq<Step>)
    requires AllWellFormed(steps)
    ensures Unapply(Apply(x, steps), steps) == x
    decreases |steps|
  {
    if |steps| > 0 {
      var y := ApplyStep(x, steps[0]);
      assert AllWellFormed(steps[1..]);
      UnapplyApply(y, steps[1..]);
      StepSelfInverse(x, steps[0]);
    }
  }

  /** One pass of the loop body. */
  function DoubleRound(x: State): State
  {
    DoubleRoundWellFormed();
    Apply(x, DOUBLE_ROUND)
  }

  /** The double round run backwards. */
  function InverseDoubleRound(y: State): State
  {
    DoubleRoundWellFormed();
    Unapply(y, DOUBLE_ROUND)
  }

  /** The double round is a bijection of the 512-bit state. */
  lemma DoubleRoundInvertible(x: State)
    ensures InverseDoubleRound(DoubleRound(x)) == x
  {
    DoubleRoundWellFormed();
    UnapplyApply(x, DOUBLE_ROUND);
  }

  /** The number of passes of the loop that counts the rounds down by two while positive. */
  function DoubleRounds(rounds: int): (n: nat)
    requires rounds % 2 == 0
    ensures rounds > 0 ==> 2 * n == rounds
    ensures rounds <= 0 ==> n == 0
  {
    if rounds > 0 then rounds / 2 else 0
  }

  /** n double rounds (measure as for Apply). */
  function Permute(x: State, n: nat): State
    decreases n, x
  {
    if n == 0 then x else DoubleRound(Permute(x, n - 1))
  }

  /** n inverse double rounds. */
  function InversePermute(y: State, n: nat): State
    decreases n, y
  {
    if n == 0 then y else InversePermute(InverseDoubleRound(y), n - 1)
  }

  /** Without the final addition the rounds would be reversible: the permutation has an inverse. */
  lemma {:induction false} PermuteInvertible(x: State, n: nat)
    ensures InversePermute(Permute(x, n), n) == x
    decreases n
  {
    if n > 0 {
      DoubleRoundInvertible(Permute(x, n - 1));
      PermuteInvertible(x, n - 1);
    }
  }

  /** 32-bit wrapping addition, as Java's int `+`. */
  function Sum(a: bv32, b: bv32): bv32
  {
    a + b
  }

  /** Word-by-word 32-bit addition of two equally long word sequences. */
  function AddWords(a: seq<bv32>, b: seq<bv32>): (r: seq<bv32>)
    requires |a| == |b|
    ensures |r| == |a|
    decreases |a|
  {
    if |a| == 0 then [] else [Sum(a[0], b[0])] + AddWords(a[1..], b[1..])
  }

  lemma {:induction false} AddWordsAt(a: seq<bv32>, b: seq<bv32>, i: nat)
    requires |a| == |b| && i < |a|
    ensures AddWords(a, b)[i] == Sum(a[i], b[i])
    decreases |a|
  {
    if i > 0 {
      AddWordsAt(a[1..], b[1..], i - 1);
    }
  }

  /** The final loop x[i] = x[i] + input[i]. */
  function FeedForward(p: State, input: State): (r: State)
  {
    AddWords(p, input)
  }

  /** The core with its argument checks passed: the permuted state added to the input. Its
      words are given by CoreWord, kept out of the contract so that callers which only pass
      the output along do not see the additions. */
  function Core(rounds: int, input: State): (r: State)
    requires rounds % 2 == 0
  {
    FeedForward(Permute(input, DoubleRounds(rounds)), input)
  }

  /** Each word of the core is the permuted word plus the input word. */
  lemma CoreWord(rounds: int, input: State, i: nat)
    requires rounds % 2 == 0 && i < STATE_WORDS
    ensures Core(rounds, input)[i] == Sum(Permute(input, DoubleRounds(rounds))[i], input[i])
  {
    AddWordsAt(Permute(input, DoubleRounds(rounds)), input, i);
  }

  lemma CoreWords(rounds: int, input: State)
    requires rounds % 2 == 0
    ensures forall i :: 0 <= i < STATE_WORDS ==>
              Core(rounds, input)[i] == Sum(Permute(input, DoubleRounds(rounds))[i], input[i])
  {
    forall i | 0 <= i < STATE_WORDS
      ensures Core(rounds, input)[i] == Sum(Permute(input, DoubleRounds(rounds))[i], input[i])
    {
      CoreWord(rounds, input, i);
    }
  }

  /** salsaCore(rounds, input, x): both arrays must hold 16 words and the round count must be
      even (Java's `rounds % 2 != 0` and Dafny's Euclidean remainder agree on oddness); the
      result is written into x. */
  function SalsaCore(rounds: int, input: seq<bv32>, outLength: int): (r: Result<State>)
    ensures r.Ok? <==> |input| == STATE_WORDS && outLength == STATE_WORDS && rounds % 2 == 0
    ensures r.Err? ==> r.error == IllegalArgument
    ensures r.Ok? ==> forall i :: 0 <= i < STATE_WORDS ==>
                        r.value[i] == Sum(Permute(input, DoubleRounds(rounds))[i], input[i])
  {
    (:- Need(|input| == STATE_WORDS, IllegalArgument);
    :- Need(outLength == STATE_WORDS, IllegalArgument);
    :- Need(rounds % 2 == 0, IllegalArgument);
    CoreWords(rounds, input);
    Ok(Core(rounds, input)))
  }

  /** With no positive round count the loop does not run and each word is doubled. */
  lemma NoRoundsDoublesInput(rounds: int, input: State, i: nat)
    requires rounds <= 0 && rounds % 2 == 0 && i < STATE_WORDS
    ensures Core(rounds, input)[i] == Sum(input[i], input[i])
  {
    CoreWord(rounds, input, i);
  }
}
