/** Argon2Parameters and its Builder: the Argon2 type and version, the cost parameters, and
    read-only copies of the salt, the secret and the associated data (each may be null, here
    None). The char-to-byte converter is not part of this model. */
module Argon2Params {
  import opened Errors
  import opened JavaInt
  import opened Bits
  import opened DirectArray
  import opened SecureBytes

  const ARGON2_D: int32 := 0x00
  const ARGON2_I: int32 := 0x01
  const ARGON2_ID: int32 := 0x02

  const VERSION_10: int32 := 0x10
  const VERSION_13: int32 := 0x13

  const DEFAULT_ITERATIONS: int32 := 3
  const DEFAULT_MEMORY_COST: nat := 12
  const DEFAULT_LANES: int32 := 1
  const DEFAULT_TYPE: int32 := ARGON2_I
  const DEFAULT_VERSION: int32 := VERSION_13

  datatype Params = Params(argonType: int32, salt: Option<CByteArray>, secret: Option<CByteArray>,
                           additional: Option<CByteArray>, iterations: int32, memory: int32,
                           lanes: int32, version: int32)

  datatype Builder = Builder(argonType: int32, salt: Option<CByteArray>, secret: Option<CByteArray>,
                             additional: Option<CByteArray>, iterations: int32, memory: int32,
                             lanes: int32, version: int32)

  /** `1 << k` on ints: Java takes the shift distance modulo 32, and a shift by 31 reaches the
      sign bit. */
  function IntShiftOne(k: int32): (r: int32)
    ensures 0 <= k < 31 ==> r == Pow2(k)
    ensures k % 32 == 31 ==> r == INT_MIN
    ensures r == Wrap32(Pow2(k % 32))
  {
    var d := k % 32;
    if d < 31 then ShiftOne(d) else Pow2Of31(); INT_MIN
  }

  /** `new Builder(type)`: one lane, 2^12 KiB of memory, three passes, version 0x13. */
  function NewBuilder(argonType: int32): (b: Builder)
    ensures b.argonType == argonType && b.lanes == 1 && b.memory == 4096 && b.iterations == 3
    ensures b.version == 0x13 && b.salt.None? && b.secret.None? && b.additional.None?
  {
    Builder(argonType, None, None, None, DEFAULT_ITERATIONS, IntShiftOne(DEFAULT_MEMORY_COST as int32),
            DEFAULT_LANES, DEFAULT_VERSION)
  }

  /** `new Builder()`: Argon2i. */
  function DefaultBuilder(): (b: Builder)
    ensures b == NewBuilder(ARGON2_I) && b.argonType == 1
  {
    NewBuilder(DEFAULT_TYPE)
  }

  // The setters keep the argument as given: no check and no copy.

  function WithParallelism(b: Builder, parallelism: int32): Builder {
    b.(lanes := parallelism)
  }

  function WithSalt(b: Builder, salt: Option<CByteArray>): Builder {
    b.(salt := salt)
  }

  function WithSecret(b: Builder, secret: Option<CByteArray>): Builder {
    b.(secret := secret)
  }

  function WithAdditional(b: Builder, additional: Option<CByteArray>): Builder {
    b.(additional := additional)
  }

  function WithIterations(b: Builder, iterations: int32): Builder {
    b.(iterations := iterations)
  }

  function WithMemoryAsKB(b: Builder, memory: int32): Builder {
    b.(memory := memory)
  }

  function WithMemoryPowOfTwo(b: Builder, memory: int32): Builder {
    b.(memory := IntShiftOne(memory))
  }

  function WithVersion(b: Builder, version: int32): Builder {
    b.(version := version)
  }

  /** Each setter replaces its own field and nothing else. */
  lemma SettersReplaceOneField(b: Builder, n: int32, a: Option<CByteArray>)
    ensures WithParallelism(b, n) == b.(lanes := n) && WithIterations(b, n) == b.(iterations := n)
    ensures WithMemoryAsKB(b, n) == b.(memory := n) && WithVersion(b, n) == b.(version := n)
    ensures WithSalt(b, a) == b.(salt := a) && WithSecret(b, a) == b.(secret := a)
    ensures WithAdditional(b, a) == b.(additional := a)
    ensures WithMemoryPowOfTwo(b, n).memory == IntShiftOne(n)
            && WithMemoryPowOfTwo(b, n) == WithMemoryAsKB(b, IntShiftOne(n))
  {
  }

  /** withMemoryPowOfTwo(m) is withMemoryAsKB(2^m) for 0 <= m <= 30; m = 31 gives a negative
      memory size and m = 32 gives 1, because the shift distance is taken modulo 32. */
  lemma MemoryPowOfTwoWraps(b: Builder, m: int32)
    ensures 0 <= m <= 30 ==> WithMemoryPowOfTwo(b, m) == WithMemoryAsKB(b, Pow2(m) as int32)
    ensures m == 31 ==> WithMemoryPowOfTwo(b, m).memory < 0
    ensures m == 32 ==> WithMemoryPowOfTwo(b, m).memory == 1
  {
    if 0 <= m <= 30 {
      assert IntShiftOne(m) == Pow2(m);
    } else if m == 31 {
      assert IntShiftOne(m) == INT_MIN;
    } else if m == 32 {
      assert m % 32 == 0 && Pow2(0) == 1;
    }
  }

  /** A read-only copy of a buffer that may be null. */
  function ReadOnlyOf(a: Option<CByteArray>): (r: Option<CByteArray>)
    ensures r.None? <==> a.None?
    ensures r.Some? ==> r.value.store.readOnly && r.value.Bytes() == a.value.Bytes()
  {
    match a
    case None => None
    case Some(x) => Some(ToReadOnly(x))
  }

  /** build(): the parameters hold read-only copies of the salt, the secret and the associated
      data, and the numbers as set. */
  function Build(b: Builder): (p: Params)
    ensures p.argonType == b.argonType && p.iterations == b.iterations && p.memory == b.memory
    ensures p.lanes == b.lanes && p.version == b.version
    ensures p.salt.None? <==> b.salt.None?
    ensures p.salt.Some? ==> p.salt.value.store.readOnly && p.salt.value.Bytes() == b.salt.value.Bytes()
    ensures p.secret.None? <==> b.secret.None?
    ensures p.secret.Some? ==> p.secret.value.store.readOnly && p.secret.value.Bytes() == b.secret.value.Bytes()
    ensures p.additional.None? <==> b.additional.None?
    ensures p.additional.Some? ==>
              p.additional.value.store.readOnly && p.additional.value.Bytes() == b.additional.value.Bytes()
  {
    Params(b.argonType, ReadOnlyOf(b.salt), ReadOnlyOf(b.secret), ReadOnlyOf(b.additional),
           b.iterations, b.memory, b.lanes, b.version)
  }

  /** The built parameters cannot be changed through their buffers: every set is refused. */
  lemma BuiltBuffersRefuseWrites(b: Builder, i: int, v: bv8)
    ensures Build(b).salt.Some? ==> Set(Build(b).salt.value, i, v) == Err(ReadOnly)
    ensures Build(b).secret.Some? ==> Set(Build(b).secret.value, i, v) == Err(ReadOnly)
    ensures Build(b).additional.Some? ==> Set(Build(b).additional.value, i, v) == Err(ReadOnly)
  {
  }

  /** after is before zeroed: null stays null, a buffer keeps its size and flag and holds only 0. */
  predicate ZeroedFrom(after: Option<CByteArray>, before: Option<CByteArray>) {
    (after.None? <==> before.None?)
    && (after.Some? ==> after.value.Length() == before.value.Length()
                        && after.value.store.readOnly == before.value.store.readOnly
                        && forall i :: 0 <= i < after.value.Length() ==> after.value.Bytes()[i] == 0)
  }

  /** Crypto.zero(buffer): nothing for null, otherwise every byte 0, read-only or not. */
  function ZeroOf(a: Option<CByteArray>): (r: Option<CByteArray>)
    ensures ZeroedFrom(r, a)
  {
    match a
    case None => None
    case Some(x) => Some(CByteArray(Zero(x.store)))
  }

  /** clear(): the salt, the secret and the associated data are zeroed in place. */
  function Clear(p: Params): (r: Params)
    ensures r.argonType == p.argonType && r.iterations == p.iterations && r.memory == p.memory
            && r.lanes == p.lanes && r.version == p.version
    ensures ZeroedFrom(r.salt, p.salt) && ZeroedFrom(r.secret, p.secret) && ZeroedFrom(r.additional, p.additional)
  {
    p.(salt := ZeroOf(p.salt), secret := ZeroOf(p.secret), additional := ZeroOf(p.additional))
  }

  /** Builder.clear(): the same on the caller's buffers held by the builder. */
  function ClearBuilder(b: Builder): (r: Builder)
    ensures r.argonType == b.argonType && r.iterations == b.iterations && r.memory == b.memory
            && r.lanes == b.lanes && r.version == b.version
    ensures ZeroedFrom(r.salt, b.salt) && ZeroedFrom(r.secret, b.secret) && ZeroedFrom(r.additional, b.additional)
  {
    b.(salt := ZeroOf(b.salt), secret := ZeroOf(b.secret), additional := ZeroOf(b.additional))
  }

  /** Clearing built parameters works although their buffers are read-only: afterwards every
      byte of them is 0, their sizes are kept, and the numbers are untouched. */
  lemma ClearZeroesBuilt(b: Builder)
    ensures var p := Clear(Build(b));
            p.argonType == b.argonType && p.iterations == b.iterations && p.memory == b.memory
            && p.lanes == b.lanes && p.version == b.version
    ensures var p := Clear(Build(b));
            (p.salt.Some? ==> p.salt.value.store.readOnly && p.salt.value.Length() == b.salt.value.Length()
                              && forall i :: 0 <= i < p.salt.value.Length() ==> p.salt.value.Bytes()[i] == 0)
            && (p.secret.Some? ==> p.secret.value.Length() == b.secret.value.Length()
                                   && forall i :: 0 <= i < p.secret.value.Length() ==> p.secret.value.Bytes()[i] == 0)
            && (p.additional.Some? ==> p.additional.value.Length() == b.additional.value.Length()
                                       && forall i :: 0 <= i < p.additional.value.Length() ==> p.additional.value.Bytes()[i] == 0)
  {
  }
}
