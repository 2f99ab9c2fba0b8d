/** Salsa20Engine and its subclass XSalsa20Engine: construction, key and nonce loading, the
    keystream block, reset and zeroing. The engine is a value; every operation returns the
    engine it leaves behind. The internal buffer `x` that generateKeyStream fills is the word
    form of the keystream block and is not kept separately. */
module SalsaEngine {
  import opened Errors
  import opened JavaInt
  import opened SecureInts
  import opened CUtils
  import opened SalsaCore
  import opened SalsaCounter

  const DEFAULT_ROUNDS: int32 := 20
  const BLOCK_BYTES: nat := 64
  /** The position is a 64-bit block counter times 64 plus an index below 64: 70 bits. */
  const TWO_70: nat := 64 * TWO_64

  /** Which engine class: the plain one or the extended-nonce subclass. */
  datatype Variant = Salsa20 | XSalsa20 {
    /** getNonceSize(). */
    function NonceSize(): nat {
      if Salsa20? then 8 else 24
    }
  }

  /** The byte counter cW0, cW1, cW2 behind the 2^70-byte limit (three Java ints). */
  datatype Limit = Limit(w0: int32, w1: int32, w2: int32)

  const NO_BYTES: Limit := Limit(0, 0, 0)

  datatype Engine = Engine(variant: Variant, rounds: int32, index: nat, state: CIntArray,
                           keyStream: seq<bv8>, initialised: bool, limit: Limit)

  /** What every engine satisfies between calls. */
  predicate Valid(e: Engine) {
    Block16(e.state) && e.index < BLOCK_BYTES && |e.keyStream| == BLOCK_BYTES
    && e.rounds > 0 && e.rounds % 2 == 0
  }

  /** The keystream block in use is the one the state produces. */
  predicate Consistent(e: Engine)
    requires Valid(e)
  {
    e.keyStream == Block(e.rounds, e.state.words)
  }

  /** getPosition() read as an unbounded number: the counter times 64 plus the index. */
  function Position(e: Engine): (p: nat)
    requires Valid(e)
    ensures p < TWO_70
  {
    Counter(e.state) * 64 + e.index
  }

  /** The position splits back into the counter and the index. */
  lemma PositionParts(e: Engine)
    requires Valid(e)
    ensures Position(e) / BLOCK_BYTES == Counter(e.state) && Position(e) % BLOCK_BYTES == e.index
  {
  }

  /** getPosition() as Java computes it: getCounter() is the counter's bits as a signed long,
      and the multiplication and addition wrap in 64 bits. */
  function GetPosition(e: Engine): (r: int64)
    requires Valid(e)
    ensures (Position(e) - r) % TWO_64 == 0
    ensures Position(e) <= LONG_MAX ==> r == Position(e)
  {
    var c := ToLong(Counter(e.state));
    ToLong(ToLong(c * 64) + e.index)
  }

  // Keystream blocks

  /** The state's bit patterns, the words the core computes on. */
  function Bits(words: seq<int32>): (r: seq<bv32>)
    ensures |r| == |words|
    decreases |words|
  {
    if |words| == 0 then [] else [ToBits(words[0])] + Bits(words[1..])
  }

  lemma {:induction false} BitsAt(words: seq<int32>, i: nat)
    requires i < |words|
    ensures Bits(words)[i] == ToBits(words[i])
    decreases |words|
  {
    if i > 0 {
      BitsAt(words[1..], i - 1);
    }
  }

  /** The ints whose bit patterns are the given words. */
  function Ints(bits: seq<bv32>): (r: seq<int32>)
    ensures |r| == |bits|
    decreases |bits|
  {
    if |bits| == 0 then [] else [FromBits(bits[0])] + Ints(bits[1..])
  }

  lemma {:induction false} IntsAt(bits: seq<bv32>, i: nat)
    requires i < |bits|
    ensures Ints(bits)[i] == FromBits(bits[i])
    decreases |bits|
  {
    if i > 0 {
      IntsAt(bits[1..], i - 1);
    }
  }

  /** generateKeyStream: the core of the state, packed little-endian into 64 bytes. */
  function Block(rounds: int, words: seq<int32>): (r: seq<bv8>)
    requires |words| == STATE_WORDS && rounds % 2 == 0
    ensures |r| == BLOCK_BYTES
    ensures LEToInts(r, 0, STATE_WORDS) == Core(rounds, Bits(words))
  {
    var out := Core(rounds, Bits(words));
    LEToIntsOfIntsToLE(out);
    IntsToLE(out)
  }

  /** The core's argument checks always pass for the engine's own arrays. */
  lemma BlockPassesChecks(e: Engine)
    requires Valid(e)
    ensures SalsaCore.SalsaCore(e.rounds, Bits(e.state.words), STATE_WORDS) == Ok(Core(e.rounds, Bits(e.state.words)))
  {
  }

  function GenerateKeyStream(e: Engine): (r: Engine)
    requires Valid(e)
    ensures Valid(r) && Consistent(r)
    ensures r == e.(keyStream := r.keyStream)
  {
    e.(keyStream := Block(e.rounds, e.state.words))
  }

  // Construction

  /** The fields of a new engine: zero state and keystream, index 0, not initialised. */
  function Blank(variant: Variant, rounds: int32): (e: Engine)
  {
    Engine(variant, rounds, 0, CIntArray(seq(STATE_WORDS, _ => 0), false),
           seq(BLOCK_BYTES, _ => 0), false, NO_BYTES)
  }

  /** `new Salsa20Engine(rounds)`: the round count must be positive and even (Java's
      `(rounds & 1) != 0` is oddness, as Dafny's `% 2` is). */
  function New(rounds: int32): (r: Result<Engine>)
    ensures r.Ok? <==> rounds > 0 && rounds % 2 == 0
    ensures r.Err? ==> r.error == IllegalArgument
    ensures r.Ok? ==> Valid(r.value) && !r.value.initialised && r.value.variant == Salsa20
                      && r.value.rounds == rounds && Position(r.value) == 0
  {
    (:- Need(rounds > 0 && rounds % 2 == 0, IllegalArgument);
    Ok(Blank(Salsa20, rounds)))
  }

  /** `new Salsa20Engine()`. */
  function NewDefault(): (e: Engine)
    ensures Valid(e) && e.rounds == DEFAULT_ROUNDS && e.variant == Salsa20 && !e.initialised
    ensures New(DEFAULT_ROUNDS) == Ok(e)
  {
    Blank(Salsa20, DEFAULT_ROUNDS)
  }

  /** `new XSalsa20Engine()`: the inherited default constructor, twenty rounds. */
  function NewXSalsa(): (e: Engine)
    ensures Valid(e) && e.rounds == DEFAULT_ROUNDS && e.variant == XSalsa20 && !e.initialised
  {
    Blank(XSalsa20, DEFAULT_ROUNDS)
  }

  // Key and nonce

  /** TAU_SIGMA: the little-endian words of "expand 16-byte k" followed by "expand 32-byte k". */
  const TAU_SIGMA: seq<int32> := [0x61707865, 0x3120646e, 0x79622d36, 0x6b206574,
                                  0x61707865, 0x3320646e, 0x79622d32, 0x6b206574]

  /** The ASCII codes of "expand 16-byte k" and of "expand 32-byte k", which CUtils.toByteArray
      produces from the two strings. */
  const TAU_BYTES: seq<bv8> :=
    [0x65, 0x78, 0x70, 0x61, 0x6e, 0x64, 0x20, 0x31, 0x36, 0x2d, 0x62, 0x79, 0x74, 0x65, 0x20, 0x6b]
  const SIGMA_BYTES: seq<bv8> :=
    [0x65, 0x78, 0x70, 0x61, 0x6e, 0x64, 0x20, 0x33, 0x32, 0x2d, 0x62, 0x79, 0x74, 0x65, 0x20, 0x6b]

  /** The constants are the little-endian words of the two texts. */
  lemma TauSpellsExpand16()
    ensures forall k :: 0 <= k < 4 ==> LEToInt(TAU_BYTES, 4 * k) as int == Unsigned(TAU_SIGMA[k])
  {
    assert LEToInt(TAU_BYTES, 0) as int == Unsigned(TAU_SIGMA[0]);
    assert LEToInt(TAU_BYTES, 4) as int == Unsigned(TAU_SIGMA[1]);
    assert LEToInt(TAU_BYTES, 8) as int == Unsigned(TAU_SIGMA[2]);
    assert LEToInt(TAU_BYTES, 12) as int == Unsigned(TAU_SIGMA[3]);
  }

  lemma SigmaSpellsExpand32()
    ensures forall k :: 0 <= k < 4 ==> LEToInt(SIGMA_BYTES, 4 * k) as int == Unsigned(TAU_SIGMA[4 + k])
  {
    assert LEToInt(SIGMA_BYTES, 0) as int == Unsigned(TAU_SIGMA[4]);
    assert LEToInt(SIGMA_BYTES, 4) as int == Unsigned(TAU_SIGMA[5]);
    assert LEToInt(SIGMA_BYTES, 8) as int == Unsigned(TAU_SIGMA[6]);
    assert LEToInt(SIGMA_BYTES, 12) as int == Unsigned(TAU_SIGMA[7]);
  }

  /** littleEndianToInt(bs, off, ns, at, count) on the engine's own array: count words read 4
      bytes apart from bs[off..] into ns[at..]. */
  function LoadWords(words: seq<int32>, at: nat, bs: seq<bv8>, off: nat, count: nat): (r: seq<int32>)
    requires at + count <= |words| && off + 4 * count <= |bs|
    ensures |r| == |words|
    ensures forall j :: at <= j < at + count ==> r[j] == FromBits(LEToInt(bs, off + 4 * (j - at)))
    ensures forall j :: 0 <= j < |words| && !(at <= j < at + count) ==> r[j] == words[j]
    decreases count
  {
    if count == 0 then words
    else LoadWords(words[at := FromBits(LEToInt(bs, off))], at + 1, bs, off + 4, count - 1)
  }

  /** The key part of setKey: the constants chosen by the key length and the key words; the
      counter and nonce words stay. */
  function InstallKey(words: seq<int32>, k: seq<bv8>): (r: seq<int32>)
    requires |words| == STATE_WORDS && (|k| == 16 || |k| == 32)
    ensures |r| == STATE_WORDS
    ensures forall j :: 6 <= j < 10 ==> r[j] == words[j]
    ensures var ts := if |k| == 16 then 0 else 4;
            r[0] == TAU_SIGMA[ts] && r[5] == TAU_SIGMA[ts + 1]
            && r[10] == TAU_SIGMA[ts + 2] && r[15] == TAU_SIGMA[ts + 3]
    ensures forall j :: 1 <= j < 5 ==> r[j] == FromBits(LEToInt(k, 4 * (j - 1)))
    ensures forall j :: 11 <= j < 15 ==> r[j] == FromBits(LEToInt(k, |k| - 16 + 4 * (j - 11)))
  {
    var ts := (|k| - 16) / 4;
    var w := words[0 := TAU_SIGMA[ts]][5 := TAU_SIGMA[ts + 1]][10 := TAU_SIGMA[ts + 2]][15 := TAU_SIGMA[ts + 3]];
    var w := LoadWords(w, 1, k, 0, 4);
    LoadWords(w, 11, k, |k| - 16, 4)
  }

  /** Salsa20Engine.setKey(key, iv): a key (16 or 32 bytes) sets the four constant words, chosen
      by its length, and the eight key words; the first 8 nonce bytes always set words 6-7.
      A missing key (re-initialisation) changes only the nonce words. The nonce length has been
      checked by init. */
  function SetKeySalsa(words: seq<int32>, key: Option<seq<bv8>>, iv: seq<bv8>): (r: Result<seq<int32>>)
    requires |words| == STATE_WORDS && |iv| >= 8
    ensures r.Err? <==> key.Some? && |key.value| != 16 && |key.value| != 32
    ensures r.Err? ==> r.error == IllegalArgument
    ensures r.Ok? ==> |r.value| == STATE_WORDS
    ensures r.Ok? ==> forall j :: 6 <= j < 8 ==> r.value[j] == FromBits(LEToInt(iv, 4 * (j - 6)))
    ensures r.Ok? ==> r.value[LOW] == words[LOW] && r.value[HIGH] == words[HIGH]
    ensures r.Ok? && key.None? ==> forall j :: 0 <= j < STATE_WORDS && !(6 <= j < 8) ==> r.value[j] == words[j]
    ensures r.Ok? && key.Some? ==>
              var ts := if |key.value| == 16 then 0 else 4;
              r.value[0] == TAU_SIGMA[ts] && r.value[5] == TAU_SIGMA[ts + 1]
              && r.value[10] == TAU_SIGMA[ts + 2] && r.value[15] == TAU_SIGMA[ts + 3]
              && (forall j :: 1 <= j < 5 ==> r.value[j] == FromBits(LEToInt(key.value, 4 * (j - 1))))
              && (forall j :: 11 <= j < 15 ==>
                    r.value[j] == FromBits(LEToInt(key.value, |key.value| - 16 + 4 * (j - 11))))
  {
    if key.Some? then
      var k := key.value;
      :- Need(|k| == 16 || |k| == 32, IllegalArgument);
      Ok(LoadWords(InstallKey(words, k), 6, iv, 0, 2))
    else
      Ok(LoadWords(words, 6, iv, 0, 2))
  }

  /** A 128-bit key fills both key halves with the same four words. */
  lemma ShortKeyRepeats(words: seq<int32>, key: seq<bv8>, iv: seq<bv8>)
    requires |words| == STATE_WORDS && |iv| >= 8 && |key| == 16
    ensures SetKeySalsa(words, Some(key), iv).Ok?
    ensures var w := SetKeySalsa(words, Some(key), iv).value;
            forall j :: 1 <= j < 5 ==> w[j] == w[j + 10]
  {
  }

  /** The state HSalsa20 runs on: the Salsa20 key setup with a 32-byte key and the first 8
      nonce bytes, and nonce bytes 8..15 written over the counter words. */
  function HSalsaInput(words: seq<int32>, key: seq<bv8>, iv: seq<bv8>): (r: seq<int32>)
    requires |words| == STATE_WORDS && |key| == 32 && |iv| >= 24
    ensures |r| == STATE_WORDS
    ensures r[0] == TAU_SIGMA[4] && r[5] == TAU_SIGMA[5] && r[10] == TAU_SIGMA[6] && r[15] == TAU_SIGMA[7]
    ensures forall j :: 6 <= j < 10 ==> r[j] == FromBits(LEToInt(iv, 4 * (j - 6)))
    ensures forall j :: 1 <= j < 5 ==> r[j] == FromBits(LEToInt(key, 4 * (j - 1)))
    ensures forall j :: 11 <= j < 15 ==> r[j] == FromBits(LEToInt(key, 16 + 4 * (j - 11)))
  {
    var w := SetKeySalsa(words, Some(key), iv).value;
    LoadWords(w, 8, iv, 8, 2)
  }

  /** Java's int subtraction on bit patterns (two's complement wraps the same way). */
  function Diff(a: bv32, b: bv32): bv32
  {
    a - b
  }

  /** Undoing the final addition of the core gives the permuted word back. */
  lemma DiffUndoesSum(p: bv32, i: bv32)
    ensures Diff(Sum(p, i), i) == p
  {
    assert Diff(Sum(p, i), i) == Diff(p + i, i);
    assert Diff(p + i, i) == p;
  }

  /** The output positions the subkey is taken from: the diagonal 0, 5, 10, 15, then the
      nonce positions 6..9. */
  const SUBKEY_POSITIONS: seq<nat> := [0, 5, 10, 15, 6, 7, 8, 9]

  /** hsalsa20Out.get(p) - engineState.get(p) for each subkey position p, on bit patterns. */
  function SubkeyBits(out: State, input: State): (r: seq<bv32>)
    ensures |r| == 8
    ensures forall k :: 0 <= k < 8 ==> r[k] == Diff(out[SUBKEY_POSITIONS[k]], input[SUBKEY_POSITIONS[k]])
  {
    seq(8, k requires 0 <= k < 8 => Diff(out[SUBKEY_POSITIONS[k]], input[SUBKEY_POSITIONS[k]]))
  }

  /** The subkey is HSalsa20 proper: the 20-round permutation of the input without the core's
      final addition, read at the diagonal and nonce positions. */
  lemma SubkeyBitsArePermuted(input: State, k: nat)
    requires k < 8
    ensures SubkeyBits(Core(DEFAULT_ROUNDS, input), input)[k]
            == Permute(input, DoubleRounds(DEFAULT_ROUNDS))[SUBKEY_POSITIONS[k]]
  {
    var p := SUBKEY_POSITIONS[k];
    CoreWord(DEFAULT_ROUNDS, input, p);
    DiffUndoesSum(Permute(input, DoubleRounds(DEFAULT_ROUNDS))[p], input[p]);
  }

  /** The subkey setKey computes from the HSalsa20 input state h, as ints. */
  function HSalsaSubkey(h: seq<int32>): (r: seq<int32>)
    requires |h| == STATE_WORDS
    ensures |r| == 8
  {
    Ints(SubkeyBits(Core(DEFAULT_ROUNDS, Bits(h)), Bits(h)))
  }

  /** Each subkey word is the int whose bits are the permuted state word. */
  lemma SubkeyIsPermutedState(h: seq<int32>, k: nat)
    requires |h| == STATE_WORDS && k < 8
    ensures HSalsaSubkey(h)[k] == FromBits(Permute(Bits(h), DoubleRounds(DEFAULT_ROUNDS))[SUBKEY_POSITIONS[k]])
  {
    IntsAt(SubkeyBits(Core(DEFAULT_ROUNDS, Bits(h)), Bits(h)), k);
    SubkeyBitsArePermuted(Bits(h), k);
  }

  /** The rest of XSalsa20Engine.setKey once the subkey is known: subkey words into positions
      1-4 and 11-14, then nonce bytes 16..23 into words 6-7. */
  function InstallSubkey(h: seq<int32>, sub: seq<int32>, iv: seq<bv8>): (r: seq<int32>)
    requires |h| == STATE_WORDS && |sub| == 8 && |iv| >= 24
    ensures |r| == STATE_WORDS
    ensures r[0] == h[0] && r[5] == h[5] && r[10] == h[10] && r[15] == h[15]
    ensures forall j :: 1 <= j < 5 ==> r[j] == sub[j - 1]
    ensures forall j :: 11 <= j < 15 ==> r[j] == sub[j - 7]
    ensures forall j :: 6 <= j < 8 ==> r[j] == FromBits(LEToInt(iv, 16 + 4 * (j - 6)))
    ensures forall j :: 8 <= j < 10 ==> r[j] == h[j]
  {
    var w := h[1 := sub[0]][2 := sub[1]][3 := sub[2]][4 := sub[3]];
    var w := w[11 := sub[4]][12 := sub[5]][13 := sub[6]][14 := sub[7]];
    LoadWords(w, 6, iv, 16, 2)
  }

  /** XSalsa20Engine.setKey(key, iv): only a 32-byte key is accepted, also on
      re-initialisation. The 32-byte Salsa20 key setup with nonce bytes 0..15 (HSalsaInput)
      is run through the 20-round core; the eight subkey words replace the key words, nonce
      bytes 16..23 fill words 6-7, and the constants and nonce bytes 8..15 stay. */
  function SetKeyX(words: seq<int32>, key: Option<seq<bv8>>, iv: seq<bv8>): (r: Result<seq<int32>>)
    requires |words| == STATE_WORDS && |iv| >= 24
    ensures r.Err? <==> key.None? || |key.value| != 32
    ensures r.Err? ==> r.error == IllegalArgument
    ensures r.Ok? ==>
              var sub := HSalsaSubkey(HSalsaInput(words, key.value, iv));
              |r.value| == STATE_WORDS
              && r.value[0] == TAU_SIGMA[4] && r.value[5] == TAU_SIGMA[5]
              && r.value[10] == TAU_SIGMA[6] && r.value[15] == TAU_SIGMA[7]
              && (forall j :: 1 <= j < 5 ==> r.value[j] == sub[j - 1])
              && (forall j :: 11 <= j < 15 ==> r.value[j] == sub[j - 7])
              && (forall j :: 6 <= j < 8 ==> r.value[j] == FromBits(LEToInt(iv, 16 + 4 * (j - 6))))
              && (forall j :: 8 <= j < 10 ==> r.value[j] == FromBits(LEToInt(iv, 8 + 4 * (j - 8))))
  {
    (:- Need(key.Some?, IllegalArgument);
    :- Need(|key.value| == 32, IllegalArgument);
    var h := HSalsaInput(words, key.value, iv);
    Ok(InstallSubkey(h, HSalsaSubkey(h), iv)))
  }

  /** setKey, dispatched on the engine class. */
  function SetKey(variant: Variant, words: seq<int32>, key: Option<seq<bv8>>, iv: seq<bv8>): (r: Result<seq<int32>>)
    requires |words| == STATE_WORDS && |iv| == variant.NonceSize()
    ensures r.Ok? ==> |r.value| == STATE_WORDS
    ensures r.Err? ==> r.error == IllegalArgument
  {
    if variant.Salsa20? then SetKeySalsa(words, key, iv) else SetKeyX(words, key, iv)
  }

  /** The parameter objects init accepts: a key, a nonce around optional key parameters, or
      anything else. */
  datatype CipherParameters =
    | KeyParameter(key: seq<bv8>)
    | ParametersWithIV(parameters: Option<CipherParameters>, iv: Option<seq<bv8>>)
    | OtherParameters

  /** The key init hands to setKey: Some for a KeyParameter, None for absent key parameters
      (allowed only once initialised), an error otherwise. */
  function InitKey(e: Engine, parameters: Option<CipherParameters>): (r: Result<Option<seq<bv8>>>)
    ensures r.Ok? <==> (parameters.None? && e.initialised) || (parameters.Some? && parameters.value.KeyParameter?)
    ensures parameters.None? && !e.initialised ==> r == Err(IllegalState)
    ensures parameters.Some? && !parameters.value.KeyParameter? ==> r == Err(IllegalArgument)
    ensures r.Ok? && parameters.Some? ==> r.value == Some(parameters.value.key)
    ensures r.Ok? && parameters.None? ==> r.value.None?
  {
    if parameters.None? then
      if !e.initialised then Err(IllegalState) else Ok(None)
    else if parameters.value.KeyParameter? then Ok(Some(parameters.value.key))
    else Err(IllegalArgument)
  }

  /** reset(): index 0, limit counter and block counter zero, keystream regenerated. */
  function Reset(e: Engine): (r: Engine)
    requires Valid(e)
    ensures Valid(r) && Consistent(r) && Position(r) == 0 && r.limit == NO_BYTES
    ensures SameOutsideCounter(r.state.words, e.state.words)
    ensures r.variant == e.variant && r.rounds == e.rounds && r.initialised == e.initialised
  {
    GenerateKeyStream(e.(index := 0, limit := NO_BYTES, state := ResetCounter(e.state)))
  }

  /** init(forEncryption, params): the direction is irrelevant for a stream cipher. The
      parameters must carry a nonce of exactly getNonceSize() bytes; then setKey, reset, and the
      engine is initialised. */
  function Init(e: Engine, params: CipherParameters): (r: Result<Engine>)
    requires Valid(e)
    ensures r.Ok? <==>
              params.ParametersWithIV? && params.iv.Some? && |params.iv.value| == e.variant.NonceSize()
              && InitKey(e, params.parameters).Ok?
              && SetKey(e.variant, e.state.words, InitKey(e, params.parameters).value, params.iv.value).Ok?
    ensures !params.ParametersWithIV? ==> r == Err(IllegalArgument)
    ensures params.ParametersWithIV? && (params.iv.None? || |params.iv.value| != e.variant.NonceSize()) ==>
              r == Err(IllegalArgument)
    ensures r.Ok? ==> Valid(r.value) && Consistent(r.value) && r.value.initialised
                      && Position(r.value) == 0 && r.value.limit == NO_BYTES
                      && r.value.variant == e.variant && r.value.rounds == e.rounds
    ensures r.Ok? ==> Counter(r.value.state) == 0 && SameOutsideCounter(
                        r.value.state.words,
                        SetKey(e.variant, e.state.words, InitKey(e, params.parameters).value, params.iv.value).value)
  {
    (:- Need(params.ParametersWithIV?, IllegalArgument);
    :- Need(params.iv.Some? && |params.iv.value| == e.variant.NonceSize(), IllegalArgument);
    var key :- InitKey(e, params.parameters);
    var words :- SetKey(e.variant, e.state.words, key, params.iv.value);
    Ok(Reset(e.(state := e.state.(words := words))).(initialised := true)))
  }

  /** XSalsa20 cannot be re-initialised with a new nonce alone: the null key is refused even
      after a first initialisation. */
  lemma XSalsaRefusesReinitWithoutKey(e: Engine, iv: seq<bv8>)
    requires Valid(e) && e.variant == XSalsa20 && |iv| == 24
    ensures Init(e, ParametersWithIV(None, Some(iv))).Err?
  {
  }

  /** A Salsa20 engine initialised once accepts a new nonce alone and keeps its key words. */
  lemma SalsaReinitKeepsKey(e: Engine, iv: seq<bv8>)
    requires Valid(e) && e.variant == Salsa20 && e.initialised && |iv| == 8
    ensures var r := Init(e, ParametersWithIV(None, Some(iv)));
            r.Ok? && forall j :: 0 <= j < 6 || 10 <= j < STATE_WORDS ==> r.value.state.words[j] == e.state.words[j]
  {
  }

  /** zero(): keystream, internal buffer and state are wiped; index, limit and the
      initialised flag are left as they are. */
  function Zero(e: Engine): (r: Engine)
    requires Valid(e)
    ensures Valid(r)
    ensures forall i :: 0 <= i < BLOCK_BYTES ==> r.keyStream[i] == 0
    ensures forall i :: 0 <= i < STATE_WORDS ==> r.state.words[i] == 0
    ensures r.index == e.index && r.limit == e.limit && r.initialised == e.initialised
    ensures r.variant == e.variant && r.rounds == e.rounds
  {
    e.(keyStream := seq(BLOCK_BYTES, _ => 0), state := SecureInts.Zero(e.state))
  }

  /** Nothing of the key survives zero(): engines that differ only in key material are equal
      once zeroed. */
  lemma ZeroForgetsKey(a: Engine, b: Engine)
    requires Valid(a) && Valid(b)
    requires a == b.(state := a.state, keyStream := a.keyStream)
    ensures Zero(a) == Zero(b)
  {
    assert Zero(a).state.words == Zero(b).state.words;
  }
}
