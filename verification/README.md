# MemSafeCrypto core in Dafny

MemSafeCrypto is a Java library. It keeps key material in off-heap buffers that can be wiped (`CByteArray`, `CIntArray`, `CLongArray` over `DirectArrayBase`). On top of them it re-implements several Bouncy Castle primitives: the Salsa20/XSalsa20 stream cipher, the scrypt and Argon2 password hashes, and the PBE parameter generators. `MemCrypt` uses XSalsa20 to keep data encrypted in memory under a per-session key.

This project models that core as immutable values and pure functions. Every Java exception is a `Result` error from module `Errors`. Java `int`/`long` arithmetic, with its wrap-around, truncating division and `>>>`, is written out in `JavaInt` and `Bits`.

Modules follow the source:

- **Buffers:** `DirectArray`, `SecureBytes`, `SecureInts`.
- **Little-endian packing:** `CUtils`.
- **Character conversion:** `Crypto`.
- **Byte streams:** `ByteInput` and `ByteOutput`, for `CByteArrayInputStream` and `CByteArrayOutputStream`.
- **PBE generators:** `PBE`.
- **Salsa20:**
  - `SalsaCore`: the double round and the core;
  - `SalsaCounter`: the block counter;
  - `SalsaEngine`: init, key setup, HSalsa20;
  - `SalsaStream`: processBytes, returnByte and the 2^70 limit;
  - `SalsaSkip`: skip, seek, getPosition.
- **XSalsa20 helpers:** `XSalsaTools`.
- **scrypt:** `ScryptParams` and `Scrypt`.
- **Argon2:** `Argon2Params`, `Argon2`, `Argon2Block`, `Argon2Hash`, `Argon2Generate`.
- **In-memory encryption:** `MemCrypt`.

Some code is not available or depends on the environment. It enters as a function-typed parameter, each with only its output length assumed:

- the BLAKE2b digest;
- the PBKDF2-HMAC-SHA256 of scrypt;
- the UTF-8 encoder;
- the random and hash-code inputs of `MemCrypt`.

Wherever the code looks wrong, the model keeps two definitions side by side (see "## Findings"):

- the code as written, with a lemma exhibiting the discrepancy on a concrete input;
- the evidently intended behaviour, with its property proved.

The rest of the model builds on the intended one. The reference definitions against which the operations are proved are:

- the Salsa20 double round as a table of 32 lines;
- `scryptBlockMix`, `scryptROMix` and scrypt of RFC 7914;
- the permutation P, GB and H' of RFC 9106.

## Model

| member | source | states |
|---|---|---|
| SalsaCore.DoubleRoundWellFormed | src/goryachev/memsafecrypto/bc/Salsa20Engine.java:548-580 | the double round has 32 lines, and each line writes a word other than the two words it reads |
| SalsaCore.ApplyStep | src/goryachev/memsafecrypto/bc/Salsa20Engine.java:548-580 | one line `x[t] ^= rotl(x[a] + x[b], n)` changes word t and no other word |
| SalsaCore.StepSelfInverse | src/goryachev/memsafecrypto/bc/Salsa20Engine.java:548-580 | performing one line twice gives back the state it started from |
| SalsaCore.UnapplyApply | src/goryachev/memsafecrypto/bc/Salsa20Engine.java:548-580 | undoing a sequence of lines, last line first, restores the starting state |
| SalsaCore.DoubleRoundInvertible | src/goryachev/memsafecrypto/bc/Salsa20Engine.java:546-581 | one pass of the round loop is a bijection on the 512-bit state: the inverse pass recovers its input |
| SalsaCore.DoubleRounds | src/goryachev/memsafecrypto/bc/Salsa20Engine.java:546 | the loop that counts rounds down by two makes rounds/2 passes for positive rounds and none otherwise |
| SalsaCore.PermuteInvertible | src/goryachev/memsafecrypto/bc/Salsa20Engine.java:546-581 | any number of double rounds can be undone, so only the final addition makes the core one-way |
| SalsaCore.AddWordsAt | src/goryachev/memsafecrypto/bc/Salsa20Engine.java:583-598 | word i of the word-wise sum is `a[i] + b[i]` modulo 2^32 |
| SalsaCore.CoreWord | src/goryachev/memsafecrypto/bc/Salsa20Engine.java:529-598 | output word i of the core is permuted word i plus input word i, modulo 2^32 |
| SalsaCore.CoreWords | src/goryachev/memsafecrypto/bc/Salsa20Engine.java:529-598 | the same for all sixteen words at once |
| SalsaCore.SalsaCore | src/goryachev/memsafecrypto/bc/Salsa20Engine.java:514-599 | salsaCore succeeds exactly when input and output have 16 words and rounds is even, and otherwise fails with IllegalArgument; on success each word is the permuted word plus the input word |
| SalsaCore.NoRoundsDoublesInput | src/goryachev/memsafecrypto/bc/Salsa20Engine.java:546-598 | for an even round count of 0 or less the loop never runs, so each output word is the input word doubled |
| SalsaCounter.ResetCounter | src/goryachev/memsafecrypto/bc/Salsa20Engine.java:470-474 | resetCounter makes the 64-bit block counter 0 and keeps the other fourteen words |
| SalsaCounter.AdvanceCounter | src/goryachev/memsafecrypto/bc/Salsa20Engine.java:175-181 | advanceCounter changes only words 8 and 9 |
| SalsaCounter.AdvanceCounterIncrements | src/goryachev/memsafecrypto/bc/Salsa20Engine.java:175-181 | advanceCounter adds one to the counter, and a counter of 2^64 - 1 wraps to 0: the carry from word 8 reaches word 9 |
| SalsaCounter.RetreatCounter | src/goryachev/memsafecrypto/bc/Salsa20Engine.java:220-231 | retreatCounter fails with IllegalState exactly when the counter is already zero, and otherwise changes only words 8 and 9 |
| SalsaCounter.RetreatCounterDecrements | src/goryachev/memsafecrypto/bc/Salsa20Engine.java:220-231 | a counter above zero goes down by one, with the borrow taken from word 9 |
| SalsaCounter.RetreatUndoesAdvance | src/goryachev/memsafecrypto/bc/Salsa20Engine.java:175-231 | retreatCounter after advanceCounter gives back the same state array, below the wrap |
| SalsaCounter.CounterDetermines | src/goryachev/memsafecrypto/bc/Salsa20Engine.java:464-467 | getCounter is injective on words 8 and 9: two states that agree elsewhere and have the same counter are equal |
| SalsaCounter.Halves | src/goryachev/memsafecrypto/bc/Salsa20Engine.java:156-157 | the halves `(int)(diff >>> 32)` and `(int)diff` put back together give diff read as unsigned |
| SalsaCounter.AdvanceCounterByAsWritten | src/goryachev/memsafecrypto/bc/Salsa20Engine.java:154-172 | advanceCounter(long), with CIntArray.add as written, touches only words 8 and 9 |
| SalsaCounter.AdvanceCounterBy | src/goryachev/memsafecrypto/bc/Salsa20Engine.java:154-172 | advanceCounter(long) with add storing the sum, an unsigned carry test, and the source's `hi > 0` read as `hi != 0` (so a high half with its top bit set is added too), touches only words 8 and 9 |
| SalsaCounter.AdvanceCounterByAdds | src/goryachev/memsafecrypto/bc/Salsa20Engine.java:154-172 | the corrected advanceCounter(long) moves the counter by diff, read as unsigned, modulo 2^64 |
| SalsaCounter.AsWrittenAgreesFromZero | src/goryachev/memsafecrypto/bc/Salsa20Engine.java:154-172 | from counter 0 and for diff >= 0 the code as written gives the same state as the corrected advance, because storing the addend equals storing the sum when the word was 0 |
| SalsaCounter.AdvanceByOneFromOne | src/goryachev/memsafecrypto/bc/Salsa20Engine.java:154-172 | from counter 1, advanceCounter(1) as written leaves the counter at 1, where 2 is intended |
| SalsaCounter.SignedCarryMisfires | src/goryachev/memsafecrypto/bc/Salsa20Engine.java:161-171 | with word 8 at INT_MAX, advancing by 1 gives 2^31 as intended but 2^32 + 1 as written; the extra carry comes from add storing 1, not from the signed test |
| SalsaCounter.AdvanceCounterBySignedTest | src/goryachev/memsafecrypto/bc/Salsa20Engine.java:154-172 | advanceCounter(long) with add repaired but `hi > 0` and the signed test `get(8) < oldState` as written touches only words 8 and 9 |
| SalsaCounter.SignedTestCarriesFromIntMax | src/goryachev/memsafecrypto/bc/Salsa20Engine.java:168 | with add repaired, the signed test carries from word 8 = INT_MAX: one step gives 2^32 + 2^31, where the intended advance gives 2^31 |
| SalsaCounter.SignedTestMissesFromMinusOne | src/goryachev/memsafecrypto/bc/Salsa20Engine.java:168 | with add repaired, the signed test misses the wrap from word 8 = 0xFFFFFFFF: one step from 2^32 - 1 gives 0, where the intended advance gives 2^32 |
| SalsaCounter.RetreatCounterBy | src/goryachev/memsafecrypto/bc/Salsa20Engine.java:184-217 | retreatCounter(long) fails only with IllegalState and otherwise touches only words 8 and 9 |
| SalsaCounter.RetreatCounterBySubtracts | src/goryachev/memsafecrypto/bc/Salsa20Engine.java:184-217 | for diff >= 0, retreatCounter(long) succeeds exactly when the counter is at least diff, and then lowers it by diff |
| SalsaEngine.Position | src/goryachev/memsafecrypto/bc/Salsa20Engine.java:448-451 | the position counter * 64 + index is below 2^70 |
| SalsaEngine.PositionParts | src/goryachev/memsafecrypto/bc/Salsa20Engine.java:448-451 | the position divided by 64 is the block counter, and the remainder is the index |
| SalsaEngine.GetPosition | src/goryachev/memsafecrypto/bc/Salsa20Engine.java:448-451 | getPosition returns the position modulo 2^64 as a long, and exactly the position while it fits a long |
| SalsaEngine.Block | src/goryachev/memsafecrypto/bc/Salsa20Engine.java:502-506 | generateKeyStream writes 64 bytes whose little-endian words are the core of the state |
| SalsaEngine.BlockPassesChecks | src/goryachev/memsafecrypto/bc/Salsa20Engine.java:502-527 | the argument checks of salsaCore never fail for the engine's own arrays |
| SalsaEngine.GenerateKeyStream | src/goryachev/memsafecrypto/bc/Salsa20Engine.java:502-506 | generateKeyStream replaces the keystream, leaves every other field as it was, and makes the keystream the block of the state |
| SalsaEngine.New | src/goryachev/memsafecrypto/bc/Salsa20Engine.java:52-60 | the constructor accepts exactly positive even round counts, fails with IllegalArgument otherwise, and yields an uninitialised engine at position 0 |
| SalsaEngine.NewDefault | src/goryachev/memsafecrypto/bc/Salsa20Engine.java:42-45 | the default constructor is the constructor with 20 rounds |
| SalsaEngine.NewXSalsa | src/goryachev/memsafecrypto/bc/XSalsa20Engine.java:12-24 | an XSalsa20 engine has 20 rounds and is not initialised |
| SalsaEngine.TauSpellsExpand16 | src/goryachev/memsafecrypto/bc/Salsa20Engine.java:19 | the first four TAU_SIGMA words are the little-endian words of the ASCII text "expand 16-byte k" |
| SalsaEngine.SigmaSpellsExpand32 | src/goryachev/memsafecrypto/bc/Salsa20Engine.java:19 | the last four TAU_SIGMA words are those of "expand 32-byte k" |
| SalsaEngine.LoadWords | src/goryachev/memsafecrypto/util/CUtils.java:74-91 | littleEndianToInt(bs, off, ints, at, count) sets words at..at+count-1 from bytes off+4j and leaves every other word unchanged |
| SalsaEngine.InstallKey | src/goryachev/memsafecrypto/bc/Salsa20Engine.java:479-495 | for a 16- or 32-byte key, words 0, 5, 10 and 15 become tau (16-byte key) or sigma (32-byte key), words 1-4 come from the first 16 key bytes, and words 11-14 come from the last 16 key bytes |
| SalsaEngine.SetKeySalsa | src/goryachev/memsafecrypto/bc/Salsa20Engine.java:477-499 | setKey fails with IllegalArgument exactly for a key that is neither 16 nor 32 bytes; it always loads the IV into words 6-7, keeps the counter words, and with a null key changes nothing else |
| SalsaEngine.ShortKeyRepeats | src/goryachev/memsafecrypto/bc/Salsa20Engine.java:486-494 | a 128-bit key fills words 11-14 with the same values as words 1-4 |
| SalsaEngine.HSalsaInput | src/goryachev/memsafecrypto/bc/XSalsa20Engine.java:46-49 | the HSalsa20 input holds sigma in words 0, 5, 10 and 15, the key in words 1-4 and 11-14, and nonce bytes 0..15 in words 6-9 |
| SalsaEngine.DiffUndoesSum | src/goryachev/memsafecrypto/bc/XSalsa20Engine.java:55-64 | subtracting the input word undoes the core's final addition |
| SalsaEngine.SubkeyBits | src/goryachev/memsafecrypto/bc/XSalsa20Engine.java:56-64 | subkey word k is the core output minus the input at positions 0, 5, 10, 15, 6, 7, 8 and 9 |
| SalsaEngine.SubkeyBitsArePermuted | src/goryachev/memsafecrypto/bc/XSalsa20Engine.java:52-64 | each subkey word equals the 20-round permutation of the state at its position: the final addition is undone |
| SalsaEngine.SubkeyIsPermutedState | src/goryachev/memsafecrypto/bc/XSalsa20Engine.java:52-64 | the same stated on the int words the engine stores |
| SalsaEngine.InstallSubkey | src/goryachev/memsafecrypto/bc/XSalsa20Engine.java:56-67 | the subkey goes into words 1-4 and 11-14, nonce bytes 16..23 go into words 6-7, and the constants and words 8-9 are kept |
| SalsaEngine.SetKeyX | src/goryachev/memsafecrypto/bc/XSalsa20Engine.java:33-68 | the XSalsa20 setKey fails with IllegalArgument for a null key or one that is not 32 bytes; otherwise the state holds sigma, the HSalsa20 subkey, nonce bytes 16..23 in words 6-7 and nonce bytes 8..15 in words 8-9 |
| SalsaEngine.SetKey | src/goryachev/memsafecrypto/bc/Salsa20Engine.java:477-499 | the virtual setKey fails only with IllegalArgument and gives a sixteen-word state |
| SalsaEngine.InitKey | src/goryachev/memsafecrypto/bc/Salsa20Engine.java:92-109 | init takes the key from a KeyParameter; absent key parameters are allowed only once initialised, failing with IllegalState before that; any other parameter type fails with IllegalArgument |
| SalsaEngine.Reset | src/goryachev/memsafecrypto/bc/Salsa20Engine.java:454-461 | reset moves to position 0, clears the limit counter, keeps every other state word, and regenerates the keystream |
| SalsaEngine.Init | src/goryachev/memsafecrypto/bc/Salsa20Engine.java:71-114 | init succeeds exactly for IV parameters whose IV has the nonce size and whose key is accepted by setKey; a missing or wrong-sized IV fails with IllegalArgument; on success the engine is initialised at position 0 with a cleared limit and the keyed state |
| SalsaEngine.XSalsaRefusesReinitWithoutKey | src/goryachev/memsafecrypto/bc/XSalsa20Engine.java:35-38 | an XSalsa20 engine refuses init with a null key even after a first init |
| SalsaEngine.SalsaReinitKeepsKey | src/goryachev/memsafecrypto/bc/Salsa20Engine.java:92-101 | an initialised Salsa20 engine accepts a new IV alone and keeps its constant and key words |
| SalsaEngine.Zero | src/goryachev/memsafecrypto/bc/Salsa20Engine.java:642-647 | zero clears every keystream byte and every state word, and keeps the index, the limit and the flags |
| SalsaEngine.ZeroForgetsKey | src/goryachev/memsafecrypto/bc/Salsa20Engine.java:642-647 | two engines that differ only in state and keystream are equal after zero: nothing of the key survives |
| SalsaSkip.SkipRest | src/goryachev/memsafecrypto/bc/Salsa20Engine.java:401-408 | moving the index by fewer than 64 bytes changes only the index and the counter words |
| SalsaSkip.SkipRestMoves | src/goryachev/memsafecrypto/bc/Salsa20Engine.java:401-408 | moving the index by r < 64, with a carry into the counter when the index wraps, moves the position forward by r modulo 2^70 |
| SalsaSkip.AdvanceBlocksMoves | src/goryachev/memsafecrypto/bc/Salsa20Engine.java:392-399 | adding count whole blocks to the counter moves the position forward by 64 * count modulo 2^70 |
| SalsaSkip.SkipForward | src/goryachev/memsafecrypto/bc/Salsa20Engine.java:388-409 | the forward branch of skip changes only the index and the counter words |
| SalsaSkip.SkipForwardSplits | src/goryachev/memsafecrypto/bc/Salsa20Engine.java:390-408 | a forward skip of n >= 64 is n / 64 whole blocks followed by the remainder |
| SalsaSkip.SkipForwardMoves | src/goryachev/memsafecrypto/bc/Salsa20Engine.java:388-409 | with add storing the sum, skip(n) for n >= 0 moves the position forward by n modulo 2^70 |
| SalsaSkip.SkipAsWrittenStalls | src/goryachev/memsafecrypto/bc/Salsa20Engine.java:392-397 | from position 64, skip(64) as written stays at 64 while the intended result is 128 |
| SalsaSkip.StepBack | src/goryachev/memsafecrypto/bc/Salsa20Engine.java:423-431 | the byte-by-byte backward loop fails only with IllegalState and changes only the index and the counter words |
| SalsaSkip.StepBackOnce | src/goryachev/memsafecrypto/bc/Salsa20Engine.java:425-430 | one step back succeeds exactly from a position above 0 and lowers it by one |
| SalsaSkip.StepBackMoves | src/goryachev/memsafecrypto/bc/Salsa20Engine.java:423-431 | k steps back succeed exactly from a position of at least k and lower it by k |
| SalsaSkip.SkipBackward | src/goryachev/memsafecrypto/bc/Salsa20Engine.java:410-432 | the backward branch of skip fails only with IllegalState and changes only the index and the counter words |
| SalsaSkip.RetreatBlocksMoves | src/goryachev/memsafecrypto/bc/Salsa20Engine.java:414-421 | retreating count whole blocks succeeds exactly when the counter is at least count, and then lowers the position by 64 * count |
| SalsaSkip.SkipBackwardSplits | src/goryachev/memsafecrypto/bc/Salsa20Engine.java:412-431 | a backward skip of 64 bytes or more retreats whole blocks, then steps back the remainder |
| SalsaSkip.SkipBackwardMoves | src/goryachev/memsafecrypto/bc/Salsa20Engine.java:410-432 | skip(n) for n < 0 succeeds exactly when the position is at least -n, and then moves the position back by -n |
| SalsaSkip.SkipBackwardWhole | src/goryachev/memsafecrypto/bc/Salsa20Engine.java:412-431 | the same for backward skips of at least one block |
| SalsaSkip.SkipBackwardLongMin | src/goryachev/memsafecrypto/bc/Salsa20Engine.java:412 | skip(Long.MIN_VALUE) negates to itself, so neither loop runs and the position stays where it was |
| SalsaSkip.SkipBy | src/goryachev/memsafecrypto/bc/Salsa20Engine.java:386-437 | skip returns its argument, regenerates the keystream from the new state, and changes nothing but index, counter and keystream |
| SalsaSkip.Skip | src/goryachev/memsafecrypto/bc/Salsa20Engine.java:386-437 | the engine's skip is the generic skip with the Salsa20 block and the corrected advance; what it does (forward mod 2^70, backward exactly when there is room) is stated by SalsaSkip.SkipMoves for every block function |
| SalsaSkip.SkipAsWritten | src/goryachev/memsafecrypto/bc/Salsa20Engine.java:386-437 | the engine's skip as written uses advanceCounter(long) with add as it stands; its effect is exhibited by SalsaSkip.SkipAsWrittenStalls |
| SalsaSkip.SkipMoves | src/goryachev/memsafecrypto/bc/Salsa20Engine.java:386-437 | skip(n) moves the position by n: forward modulo 2^70, backward exactly when there is room (IllegalState otherwise), not at all for Long.MIN_VALUE; the keystream stays the block of the new position |
| SalsaSkip.ResetBy | src/goryachev/memsafecrypto/bc/Salsa20Engine.java:454-461 | reset gives position 0, a cleared limit, the other state words kept, and the keystream of the new state |
| SalsaSkip.SeekToBy | src/goryachev/memsafecrypto/bc/Salsa20Engine.java:440-445 | seekTo returns its argument and leaves the limit cleared |
| SalsaSkip.SeekTo | src/goryachev/memsafecrypto/bc/Salsa20Engine.java:440-445 | the engine's seekTo is reset followed by the corrected skip; that it lands at p is stated by SalsaSkip.SeekToLands, and SalsaSkip.SeekToAsWrittenAgrees shows the add defect cannot show from counter 0 |
| SalsaSkip.SeekToLands | src/goryachev/memsafecrypto/bc/Salsa20Engine.java:440-451 | seekTo(p) for p >= 0 lands at position p, so getPosition returns p; for negative p (not Long.MIN_VALUE) it fails with IllegalState |
| SalsaSkip.SeekToAsWrittenAgrees | src/goryachev/memsafecrypto/bc/Salsa20Engine.java:440-445 | seekTo starts from counter 0, so the add defect cannot show there: as written and corrected agree |
| SalsaStream.Total | src/goryachev/memsafecrypto/bc/Salsa20Engine.java:36 | cW2, cW1 and cW0 hold a count below 2^96 |
| SalsaStream.LimitExceeded | src/goryachev/memsafecrypto/bc/Salsa20Engine.java:610-621 | limitExceeded() adds one byte modulo 2^96 and answers true exactly when the top word changed and now has bit 5 set |
| SalsaStream.LimitExceededBy | src/goryachev/memsafecrypto/bc/Salsa20Engine.java:627-639 | limitExceeded(len) adds len modulo 2^96 and answers true exactly when the top word changed and now has bit 5 set |
| SalsaStream.LimitQuietBelow | src/goryachev/memsafecrypto/bc/Salsa20Engine.java:627-639 | the check refuses nothing while the count stays below 2^69 |
| SalsaStream.LimitTripsAt2To69 | src/goryachev/memsafecrypto/bc/Salsa20Engine.java:627-639 | the check as written refuses the call that takes the count to 2^69, half of the 2^70 its message names |
| SalsaStream.ByteLimitTripsAt2To69 | src/goryachev/memsafecrypto/bc/Salsa20Engine.java:610-621 | the same for the single-byte check of returnByte |
| SalsaStream.LimitExceededByIntended | src/goryachev/memsafecrypto/bc/Salsa20Engine.java:627-639 | the check testing bit 6 (0x40) counts the same way |
| SalsaStream.LimitExceededIntended | src/goryachev/memsafecrypto/bc/Salsa20Engine.java:610-621 | the single-byte check testing bit 6 adds one byte modulo 2^96 and answers true exactly when the top word changed and now has bit 6 set |
| SalsaStream.IntendedByteLimitAt2To70 | src/goryachev/memsafecrypto/bc/Salsa20Engine.java:610-621 | the corrected single-byte check refuses exactly the byte that brings the count to 2^70 |
| SalsaStream.IntendedLimitQuietBelow | src/goryachev/memsafecrypto/bc/Salsa20Engine.java:627-639 | the bit-6 check refuses nothing below 2^70 |
| SalsaStream.IntendedLimitTripsAt2To70 | src/goryachev/memsafecrypto/bc/Salsa20Engine.java:627-639 | the bit-6 check refuses the call that takes the count to 2^70 |
| SalsaStream.LimitChecksAgreeBelow | src/goryachev/memsafecrypto/bc/Salsa20Engine.java:627-639 | below 2^69 the check as written and the bit-6 check are the same function |
| SalsaStream.LimitHalvesAllowance | src/goryachev/memsafecrypto/bc/Salsa20Engine.java:627-639 | at a count of 2^69 - 1 one more byte is refused as written and allowed by the bit-6 check |
| SalsaStream.SalsaIsBlock | src/goryachev/memsafecrypto/bc/Salsa20Engine.java:502-506 | on the engine's state the block function is generateKeyStream |
| SalsaStream.KeyedBySalsa | src/goryachev/memsafecrypto/bc/Salsa20Engine.java:502-506 | an engine is keyed by the Salsa20 block exactly when its keystream is the block of its state |
| SalsaStream.StepBy | src/goryachev/memsafecrypto/bc/Salsa20Engine.java:334-341 | one loop step uses keystream byte `index` and changes only index, counter and keystream |
| SalsaStream.Plus70 | src/goryachev/memsafecrypto/bc/Salsa20Engine.java:335-340 | the 70-bit position moved forward wraps to zero at 2^70 |
| SalsaStream.StepFollowsPosition | src/goryachev/memsafecrypto/bc/Salsa20Engine.java:334-341 | a step yields keystream byte p of the stream, where p is the position, and moves the position by one with the counter advancing and the block regenerating on wrap |
| SalsaStream.RunBy | src/goryachev/memsafecrypto/bc/Salsa20Engine.java:332-342 | n steps change only index, counter and keystream |
| SalsaStream.RunAdvances | src/goryachev/memsafecrypto/bc/Salsa20Engine.java:332-342 | n steps move the position by n and keep the keystream in step with the state |
| SalsaStream.NthKeyFollowsPosition | src/goryachev/memsafecrypto/bc/Salsa20Engine.java:332-342 | step m uses the keystream byte at position p + m |
| SalsaStream.ProcessLoop | src/goryachev/memsafecrypto/bc/Salsa20Engine.java:332-342 | the loop keeps the output's size and read-only flag and does not touch the limit |
| SalsaStream.ProcessLoopSucceeds | src/goryachev/memsafecrypto/bc/Salsa20Engine.java:332-342 | the loop fails exactly when some index it reads or writes is out of range or the output is read-only |
| SalsaStream.ProcessLoopXors | src/goryachev/memsafecrypto/bc/Salsa20Engine.java:332-342 | with every index in range the loop succeeds and leaves the engine as len - i steps would |
| SalsaStream.ProcessLoopLeaves | src/goryachev/memsafecrypto/bc/Salsa20Engine.java:332-342 | the loop writes no output byte outside its range |
| SalsaStream.ProcessLoopUnrolls | src/goryachev/memsafecrypto/bc/Salsa20Engine.java:334-341 | one iteration sets `out[i + outOff] = keyStream[index] ^ in[i + inOff]` and steps the engine |
| SalsaStream.ProcessLoopWritesFirst | src/goryachev/memsafecrypto/bc/Salsa20Engine.java:334 | the first byte written is the current keystream byte xor the input byte |
| SalsaStream.ProcessLoopWrites | src/goryachev/memsafecrypto/bc/Salsa20Engine.java:332-342 | output byte j is keystream byte j - outOff - i xor input byte j - outOff + inOff |
| SalsaStream.ProcessBytesBy | src/goryachev/memsafecrypto/bc/Salsa20Engine.java:310-345 | processBytes fails with IllegalState when not initialised, returns len, keeps the output size, and adds len to the limit counter, refusing at 2^70 bytes as intended |
| SalsaStream.ProcessBytes | src/goryachev/memsafecrypto/bc/Salsa20Engine.java:310-345 | the engine's processBytes is the generic one with the Salsa20 block; its meaning is stated by SalsaStream.ProcessBytesAdvances, SalsaStream.ProcessBytesWrites and SalsaStream.ProcessBytesRoundTrip |
| SalsaStream.ProcessBytesSucceeds | src/goryachev/memsafecrypto/bc/Salsa20Engine.java:310-345 | the checks come in the source's order: DataLength for a short input, then OutputLength for a short output, then MaxBytesExceeded; processBytes succeeds exactly when they pass and every index is in range of a writable output |
| SalsaStream.ProcessBytesRunsLoop | src/goryachev/memsafecrypto/bc/Salsa20Engine.java:327-344 | after the checks, processBytes is the loop run from the counted limit |
| SalsaStream.ProcessBytesAdvances | src/goryachev/memsafecrypto/bc/Salsa20Engine.java:332-344 | a successful call returns len and moves the position forward by len, keeping the keystream in step |
| SalsaStream.ProcessBytesWrites | src/goryachev/memsafecrypto/bc/Salsa20Engine.java:334 | `out[outOff + k] = keystream[position + k] ^ in[inOff + k]` for every k < len |
| SalsaStream.ProcessBytesLeaves | src/goryachev/memsafecrypto/bc/Salsa20Engine.java:332-342 | output bytes outside [outOff, outOff + len) keep their value |
| SalsaStream.ProcessBytesRoundTrip | src/goryachev/memsafecrypto/bc/Salsa20Engine.java:73-77 | processing the output again from the same position with the same key gives back the input: encryption and decryption are the same operation |
| SalsaStream.ReturnByteBy | src/goryachev/memsafecrypto/bc/Salsa20Engine.java:134-151 | returnByte fails with MaxBytesExceeded exactly when the corrected single-byte limit check trips, and otherwise counts one byte |
| SalsaStream.ReturnByteFollowsPosition | src/goryachev/memsafecrypto/bc/Salsa20Engine.java:134-151 | returnByte yields the keystream byte at the position xor the input and moves the position by one |
| XSalsaTools.Keyed | src/goryachev/memsafecrypto/bc/XSalsa20Engine.java:33-68 | a new XSalsa20 engine accepts init exactly for a 32-byte key and a 24-byte nonce (IllegalArgument otherwise) and is then keyed, initialised, at position 0 and with a cleared limit |
| XSalsaTools.NonceSlice | src/goryachev/memsafecrypto/bc/ParametersWithIV.java:18-22 | the IV is the slice nonce[offset .. offset + length), present exactly when the slice lies inside the array |
| XSalsaTools.Run | src/goryachev/memsafecrypto/salsa/XSalsaTools.java:20-54 | the shared body: a key that is not 32 bytes fails with IllegalArgument before any engine exists; otherwise an engine is made and is wiped on every exit path, success or failure |
| XSalsaTools.Encrypt | src/goryachev/memsafecrypto/salsa/XSalsaTools.java:20-54 | encrypt(key, nonce, input, out, offset, length) refuses a wrong key size and always leaves a wiped engine behind; the result has out's size |
| XSalsaTools.EncryptBytes | src/goryachev/memsafecrypto/salsa/XSalsaTools.java:57-91 | the overload with a nonce slice behaves the same and processes the whole cleartext |
| XSalsaTools.Decrypt | src/goryachev/memsafecrypto/salsa/XSalsaTools.java:94-128 | decrypt(key, nonce, offset, length, input, out) refuses a wrong key size and always leaves a wiped engine behind |
| XSalsaTools.DecryptBytes | src/goryachev/memsafecrypto/salsa/XSalsaTools.java:131-168 | the overload returns a fresh buffer of length bytes and leaves a wiped engine behind |
| XSalsaTools.KeyedProcesses | src/goryachev/memsafecrypto/salsa/XSalsaTools.java:47 | a freshly keyed engine processes any range inside a writable output without error |
| XSalsaTools.RunProcesses | src/goryachev/memsafecrypto/salsa/XSalsaTools.java:20-54 | with a good key and nonce, the result is what processBytes writes on the keyed engine |
| XSalsaTools.KeyedWrites | src/goryachev/memsafecrypto/salsa/XSalsaTools.java:47 | output byte outOff + k is keystream byte k of the keyed state xor input byte inOff + k |
| XSalsaTools.KeyedLeaves | src/goryachev/memsafecrypto/salsa/XSalsaTools.java:47 | output bytes outside the range keep their value |
| XSalsaTools.KeyedKeepsPrefix | src/goryachev/memsafecrypto/salsa/XSalsaTools.java:47 | the output in front of the range is unchanged |
| XSalsaTools.SalsaRoundTrip | src/goryachev/memsafecrypto/bc/Salsa20Engine.java:310-345 | for any block function, processing the output of a first pass from the same keyed start gives back the input |
| XSalsaTools.KeyedRoundTrip | src/goryachev/memsafecrypto/salsa/XSalsaTools.java:47 | the same for the XSalsa20 engine |
| XSalsaTools.CallsSucceed | src/goryachev/memsafecrypto/salsa/XSalsaTools.java:20-128 | with a 32-byte key, a 24-byte nonce, ranges in bounds and a writable output, encrypt and decrypt both succeed |
| XSalsaTools.EncryptProcesses | src/goryachev/memsafecrypto/salsa/XSalsaTools.java:20-54 | encrypt's result is processBytes(input, 0, length, out, offset) on the engine keyed with key and nonce |
| XSalsaTools.EncryptLeaves | src/goryachev/memsafecrypto/salsa/XSalsaTools.java:47 | bytes of out outside [offset, offset + length) keep their value |
| XSalsaTools.EncryptKeepsPrefix | src/goryachev/memsafecrypto/salsa/XSalsaTools.java:47 | the bytes of out in front of offset keep their value |
| XSalsaTools.RoundTrip | src/goryachev/memsafecrypto/salsa/XSalsaTools.java:20-128 | decrypt with the same key and nonce, reading from offset, gives back every byte encrypt took in |
| XSalsaTools.VariantsAgree | src/goryachev/memsafecrypto/salsa/XSalsaTools.java:20-91 | the byte[]-nonce overload over the whole nonce is the CByteArray overload over the whole data |
| XSalsaTools.NonceChecked | src/goryachev/memsafecrypto/salsa/XSalsaTools.java:26-38 | a nonce that is not 24 bytes fails with IllegalArgument inside the try, so the engine is still wiped |
| XSalsaTools.WholeNonce | src/goryachev/memsafecrypto/bc/ParametersWithIV.java:12-22 | the slice over the whole nonce is the nonce |
| XSalsaTools.DecryptBytesRuns | src/goryachev/memsafecrypto/salsa/XSalsaTools.java:131-168 | the returned buffer is processBytes of the ciphertext into a fresh buffer of length bytes |
| XSalsaTools.BytesRoundTrip | src/goryachev/memsafecrypto/salsa/XSalsaTools.java:57-168 | decrypting the byte[] overload's output gives back every byte of the cleartext |
| ScryptParams.IsPowerOf2 | src/goryachev/memsafecrypto/bc/SCrypt.java:229-232 | `(x & (x - 1)) == 0` holds for a positive int exactly when it is a power of two |
| ScryptParams.Check | src/goryachev/memsafecrypto/bc/SCrypt.java:35-72 | the checks of generate as written: passing them implies both buffers are present, N > 1 is a power of two below 65536 when r = 1, r >= 1, p >= 1 and dkLen >= 1; a failure is IllegalArgument, or ArithmeticException when r >= 2^21 makes the int divisor 0; below r = 2^21 a pass keeps 128 r p * 8 within an int |
| ScryptParams.CheckIntended | src/goryachev/memsafecrypto/bc/SCrypt.java:35-72 | the checks with p <= INT_MAX / (1024 r) in exact arithmetic pass exactly for present buffers and parameters that satisfy all of the bounds; every failure is IllegalArgument |
| ScryptParams.CheckExactBelowOverflow | src/goryachev/memsafecrypto/bc/SCrypt.java:63-64 | while 128 * r * 8 fits an int (r < 2^21), the checks as written are the intended ones |
| ScryptParams.AcceptedSizesFit | src/goryachev/memsafecrypto/bc/SCrypt.java:63-81 | for accepted parameters the byte count p * 128 r of MFcrypt, times 8, fits an int |
| ScryptParams.AcceptedSizesOk | src/goryachev/memsafecrypto/bc/SCrypt.java:63-88 | parameters the intended checks accept have exact MFcrypt sizes: N > 1 a power of two, r, p, dkLen >= 1 and 128 r p within an int |
| ScryptParams.PassedSizesOk | src/goryachev/memsafecrypto/bc/SCrypt.java:56-88 | parameters the checks as written pass have exact MFcrypt sizes whenever 128 r p fits an int |
| ScryptParams.CostBound | src/goryachev/memsafecrypto/bc/SCrypt.java:63-67 | below r = 2^21 a p within INT_MAX / (128 r 8) keeps 128 r p 8 within an int |
| ScryptParams.MaxParallelWraps | src/goryachev/memsafecrypto/bc/SCrypt.java:63 | with r = 2^22 + 1 the int product 128 * r * 8 wraps, so N = 2, p = 4 passes the checks as written although p * 128 r overflows, and the intended checks refuse it |
| ScryptParams.CheckRefusesUpTo2To22 | src/goryachev/memsafecrypto/bc/SCrypt.java:63-67 | for every r from 2^21 to 2^22 - 1 the int divisor wraps negative and generate's checks throw IllegalArgument, whatever p is |
| ScryptParams.CheckDividesByZeroAt2To22 | src/goryachev/memsafecrypto/bc/SCrypt.java:63 | at r = 2^22, once the buffers and N pass, the checks throw ArithmeticException (division by the wrapped 0) |
| ScryptParams.WrappedPassAbove2To22 | src/goryachev/memsafecrypto/bc/SCrypt.java:56-72 | the only parameters the checks as written let through that the intended bounds reject have r > 2^22 |
| ScryptParams.CheckAgreesUnlessWrapped | src/goryachev/memsafecrypto/bc/SCrypt.java:35-72 | apart from that wrapped acceptance above 2^22, the checks as written pass exactly when the intended ones pass |
| ScryptParams.MaxParallelDividesByZero | src/goryachev/memsafecrypto/bc/SCrypt.java:63 | with r = 2^22 the divisor 128 * r * 8 is 0 as an int: the checks as written throw ArithmeticException where IllegalArgument is intended |
| ScryptParams.WrappedPassExact | src/goryachev/memsafecrypto/bc/SCrypt.java:63-101 | N = 2, r = 2^22 + 1, p = 1 passes the checks as written although the intended ones refuse it; its sizes are exact and the loop keeps d = 0 |
| ScryptParams.WrappedTotalAt2To22 | src/goryachev/memsafecrypto/bc/SCrypt.java:56-101 | N = 2^22, r = 512, p = 1 passes both checks, and with N * r wrapped to INT_MIN the loop as written keeps d = 0 |
| ScryptParams.Halve | src/goryachev/memsafecrypto/bc/SCrypt.java:100 | `total >>>= 1` is non-negative and halves a non-negative total |
| ScryptParams.ChunkLoop | src/goryachev/memsafecrypto/bc/SCrypt.java:97-101 | the loop ends with d between its start and N, total halved once per pass, and either N - d <= 2 or total <= 1024; every pass it made had its condition true |
| ScryptParams.ChunkExponent | src/goryachev/memsafecrypto/bc/SCrypt.java:96-101 | d as written (the loop compares against N, not log2 N) is at most 21, and the loop stops only when N - d <= 2 or total <= 1024 |
| ScryptParams.ChunkLoopBound | src/goryachev/memsafecrypto/bc/SCrypt.java:97-101 | while total * 2^d fits an int, the loop cannot pass d = 21 |
| ScryptParams.ChunkLoopIntended | src/goryachev/memsafecrypto/bc/SCrypt.java:97-101 | the loop compared against log2 N stops with d < log2 N and either log2 N - d <= 1 or total <= 1024 |
| ScryptParams.ChunkExponentIntended | src/goryachev/memsafecrypto/bc/SCrypt.java:96-101 | d as intended leaves chunks of N >>> d >= 2 blocks: d < log2 N |
| ScryptParams.ChunkLoopsAgree | src/goryachev/memsafecrypto/bc/SCrypt.java:97-101 | while total stays within 1024 * 2^(log2 N - 1 - d) the two loops stop at the same d |
| ScryptParams.ChunkExponentsAgree | src/goryachev/memsafecrypto/bc/SCrypt.java:96-101 | for 1 <= r <= 512 (and N * r an int) d as written is d as intended |
| ScryptParams.ChunkOfOneBlock | src/goryachev/memsafecrypto/bc/SCrypt.java:96-101 | N = 4, r = 1024, p = 1 passes the checks, and d as written is 2, giving chunks of 4 >>> 2 = 1 block, while d as intended is 1, giving chunks of 2 |
| Scrypt.XorState | src/goryachev/memsafecrypto/bc/SCrypt.java:210-216 | word i of the result is word i of a xor word i of b |
| Scrypt.XorBlock | src/goryachev/memsafecrypto/bc/SCrypt.java:173 | sub-block s of the result is the xor of sub-blocks s |
| Scrypt.Xor | src/goryachev/memsafecrypto/bc/SCrypt.java:210-216 | Xor(a, b, bOff, output) sets output[i] = a[i] ^ b[bOff + i] for every i of output |
| Scrypt.PlaceStep | src/goryachev/memsafecrypto/bc/SCrypt.java:204 | `YOff = halfLen + BOff - YOff` moves the write offset from the place of output t to that of output t + 1 |
| Scrypt.PlaceInverse | src/goryachev/memsafecrypto/bc/SCrypt.java:197-206 | placing even outputs in the first half and odd ones in the second is a bijection on the 2r sub-blocks |
| Scrypt.MixLoop | src/goryachev/memsafecrypto/bc/SCrypt.java:197-206 | after the loop has run from t on, every sub-block whose output is at or after t is that of scryptBlockMix and the rest are as they were |
| Scrypt.Pass | src/goryachev/memsafecrypto/bc/SCrypt.java:199-205 | one pass computes the next chained Salsa20/8 output, writes it at its place, and moves the offsets |
| Scrypt.MixLoopStep | src/goryachev/memsafecrypto/bc/SCrypt.java:197-206 | the loop invariant carries over one pass |
| Scrypt.BlockMix | src/goryachev/memsafecrypto/bc/SCrypt.java:191-207 | BlockMix is scryptBlockMix of section 4 of RFC 7914: Y_i = Salsa(X xor B_i) chained, with even outputs first and odd outputs second |
| Scrypt.Mixer | src/goryachev/memsafecrypto/bc/SCrypt.java:191-207 | BlockMix on blocks of 2r sub-blocks keeps the block size |
| Scrypt.FillPairs | src/goryachev/memsafecrypto/bc/SCrypt.java:155-163 | the inner fill loop stores X_base .. X_(base + bpc - 1), two per pass, and fails with IndexOutOfBounds exactly when a chunk has an odd number of blocks |
| Scrypt.FillChunks | src/goryachev/memsafecrypto/bc/SCrypt.java:149-164 | the outer fill loop leaves chunk c holding X_(c bpc + i) and X at X_(count bpc) |
| Scrypt.ChunkCoordinates | src/goryachev/memsafecrypto/bc/SCrypt.java:169-171 | `j & mask` is the index modulo N, `j >>> chunkPow` its chunk and `j & chunkMask` its place in the chunk |
| Scrypt.Lookup | src/goryachev/memsafecrypto/bc/SCrypt.java:169-172 | the block read for Integerify(X) is V_j with j = Integerify(X) mod N |
| Scrypt.ChunkedLookup | src/goryachev/memsafecrypto/bc/SCrypt.java:169-173 | with the chunks filled, the lookup stays in range and the xor is X xor V_j |
| Scrypt.MixChunked | src/goryachev/memsafecrypto/bc/SCrypt.java:166-175 | the mixing loop over filled chunks is the second loop of scryptROMix; with every chunk empty it fails with IndexOutOfBounds |
| Scrypt.ChunkSizes | src/goryachev/memsafecrypto/bc/SCrypt.java:132-134 | blocksPerChunk = N >>> d is 2^(log2 N - d), even below d = log2 N, 1 at log2 N and 0 above |
| Scrypt.ChunkCapacity | src/goryachev/memsafecrypto/bc/SCrypt.java:151 | the byte capacity of `new CIntArray(blocksPerChunk * BCount)`, whose int product and `capacity * 4` (src/goryachev/memsafecrypto/CIntArray.java:15-18) wrap: it is the exact byte count when that fits an int, and smaller otherwise |
| Scrypt.ChunkError | src/goryachev/memsafecrypto/bc/SCrypt.java:151-172 | the exception of an SMix that does not complete: IndexOutOfBounds when the chunk fits (too few blocks), and otherwise IllegalArgument exactly when the wrapped capacity is negative |
| Scrypt.CapacityCases | src/goryachev/memsafecrypto/bc/SCrypt.java:151-161 | a negative capacity means SMix does not complete and throws IllegalArgument; a capacity below the bytes needed means it throws IndexOutOfBounds; a full capacity leaves completion to d < log2 N |
| Scrypt.SmallChunksFit | src/goryachev/memsafecrypto/bc/SCrypt.java:133-151 | chunks of at most one block always fit, since 4 * BCount does |
| Scrypt.FillAndMix | src/goryachev/memsafecrypto/bc/SCrypt.java:147-177 | with chunks allocated at full size, SMix is scryptROMix for d < log2 N and throws IndexOutOfBounds for d >= log2 N |
| Scrypt.SMix | src/goryachev/memsafecrypto/bc/SCrypt.java:130-178 | SMix on one lane completes exactly when d < log2 N and a chunk of N >>> d blocks of 32r ints, 4 (N >>> d) 32r bytes, fits an int; it is then scryptROMix of section 5 of RFC 7914. Otherwise it throws the exception of ChunkError: IllegalArgument for a negative wrapped capacity, IndexOutOfBounds for a chunk too small |
| Scrypt.UnflattenFlatten | src/goryachev/memsafecrypto/bc/SCrypt.java:147 | reading a block back from its ints gives the block |
| Scrypt.FlattenUnflatten | src/goryachev/memsafecrypto/bc/SCrypt.java:177 | the ints of a block read from ints are those ints |
| Scrypt.Lanes | src/goryachev/memsafecrypto/bc/SCrypt.java:103-108 | the loop over BOff runs SMix on each run of 32r ints: when SMix completes it is the p lanes of section 6 of RFC 7914, otherwise the first lane throws the exception of ChunkError |
| Scrypt.Prepend | src/goryachev/memsafecrypto/bc/SCrypt.java:104-108 | a lane in front of the rest, or the rest's error |
| Scrypt.MFcryptSizes | src/goryachev/memsafecrypto/bc/SCrypt.java:80-88 | when 128 r p fits an int, MFLenBytes = 128 r and p * MFLenBytes do not wrap, and BLen = 32 r p |
| Scrypt.MFcrypt | src/goryachev/memsafecrypto/bc/SCrypt.java:78-119 | MFcrypt with chunk exponent d and 128 r p within an int is scrypt of section 6 of RFC 7914 (dkLen bytes) exactly when SMix completes, and throws the exception of ChunkError otherwise |
| Scrypt.IntendedChunkFits | src/goryachev/memsafecrypto/bc/SCrypt.java:93-101 | under the intended checks the intended d makes SMix complete: chunks of at most 1024 r blocks of ints, or of two blocks, fit an int |
| Scrypt.ChunkFitsBelow | src/goryachev/memsafecrypto/bc/SCrypt.java:93-101 | a d below log2 N whose chunks hold two blocks or 2^(log2 N - d) r <= 1024 gives chunks that fit an int for r < 2^21 |
| Scrypt.Generate | src/goryachev/memsafecrypto/bc/SCrypt.java:35-119 | generate with the intended checks and chunk exponent succeeds exactly for present buffers and valid parameters, fails with IllegalArgument otherwise, and then returns scrypt of RFC 7914 |
| Scrypt.GenerateAsWritten | src/goryachev/memsafecrypto/bc/SCrypt.java:35-119 | generate as written, with N * r wrapping at line 96 and each chunk size wrapping at line 151: it fails exactly when its checks refuse (with their exception) or SMix does not complete for the loop's d (with ChunkError's exception), and otherwise returns scrypt of RFC 7914. Only inputs whose checks pass with 128 r p above INT_MAX are excluded |
| Scrypt.GenerateAsWrittenWrapped | src/goryachev/memsafecrypto/bc/SCrypt.java:56-67 | where 128 * r * 8 wraps, generate as written throws IllegalArgument for 2^21 <= r < 2^22 and ArithmeticException at r = 2^22; its only errors are IllegalArgument, IndexOutOfBounds and that ArithmeticException; away from the wrapped acceptance above 2^22 it fails exactly when the intended checks refuse or SMix does not complete |
| Scrypt.GenerateDividesByZero | src/goryachev/memsafecrypto/bc/SCrypt.java:63 | the end-to-end ArithmeticException: N = 2, r = 2^22, p = 1 throws it as written, and IllegalArgument as intended |
| Scrypt.WrappedCheckGivesKey | src/goryachev/memsafecrypto/bc/SCrypt.java:63 | N = 2, r = 2^22 + 1, p = 1: the wrapped bound passes, all sizes are exact and generate as written returns the RFC 7914 key, while the intended checks throw IllegalArgument |
| Scrypt.GenerateAsWrittenAgrees | src/goryachev/memsafecrypto/bc/SCrypt.java:35-119 | for 1 <= r <= 512 and N * r <= INT_MAX (so the total at line 96 does not wrap) generate as written is generate as intended |
| Scrypt.OneBlockChunksThrow | src/goryachev/memsafecrypto/bc/SCrypt.java:96-101 | N = 4, r = 1024, p = 1: generate as written throws IndexOutOfBounds from the fill loop while the intended one succeeds |
| Scrypt.ChunkAllocationWraps | src/goryachev/memsafecrypto/bc/SCrypt.java:96-151 | N = 2^22, r = 512, p = 1 (accepted by the intended checks): N * r wraps to INT_MIN, d stays 0, the chunk count 2^22 * 2^14 = 2^36 ints wraps to 0, and generate as written throws IndexOutOfBounds while the intended one returns the key |
| DirectArray.Allocate | src/goryachev/memsafecrypto/util/DirectArrayBase.java:17-20 | allocateDirect(capacity) fails with IllegalArgument exactly for a negative capacity and otherwise gives a writable buffer of that many zero bytes |
| DirectArray.CopyOf | src/goryachev/memsafecrypto/util/DirectArrayBase.java:23-34 | the copy constructor gives a writable buffer of the same capacity holding the same bytes, at position 0 |
| DirectArray.CopyLoop | src/goryachev/memsafecrypto/util/DirectArrayBase.java:29-33 | after the copy loop from i, bytes below i are the destination's and bytes from i on are the source's |
| DirectArray.SetReadOnly | src/goryachev/memsafecrypto/util/DirectArrayBase.java:37-40 | setReadOnly sets the flag and keeps the bytes |
| DirectArray.CheckWriteable | src/goryachev/memsafecrypto/util/DirectArrayBase.java:61-67 | checkWriteable throws (ReadOnly) exactly for a read-only buffer |
| DirectArray.CopyBytes | src/goryachev/memsafecrypto/util/DirectArrayBase.java:43-52 | copyBytes succeeds exactly for a non-positive length or both ranges in bounds (IndexOutOfBounds otherwise); it copies src[srcOffset + j] to index + j, keeps every other byte, the capacity and the flag, and ignores the flag as the source does |
| DirectArray.CopyRange | src/goryachev/memsafecrypto/util/DirectArrayBase.java:47-51 | after the loop from i, the range from index + i holds the source bytes and everything else is unchanged |
| DirectArray.Zero | src/goryachev/memsafecrypto/util/DirectArrayBase.java:70-78 | zero sets every byte to 0 whatever the flag, and keeps capacity and flag |
| DirectArray.ZeroLoop | src/goryachev/memsafecrypto/util/DirectArrayBase.java:74-77 | after the loop from i every byte from i on is 0 and those below are unchanged |
| DirectArray.ZeroIdempotent | src/goryachev/memsafecrypto/util/DirectArrayBase.java:70-78 | zeroing twice is zeroing once |
| DirectArray.ReadOnlyIsPermanent | src/goryachev/memsafecrypto/util/DirectArrayBase.java:37-78 | no operation on a read-only buffer clears the flag, and checkWriteable keeps refusing it |
| DirectArray.CopyIsDeep | src/goryachev/memsafecrypto/util/DirectArrayBase.java:23-34 | the copy is writable, holds the source's bytes, and takes a write |
| SecureBytes.New | src/goryachev/memsafecrypto/CByteArray.java:11-14 | `new CByteArray(n)` fails exactly for n < 0 and otherwise holds n zero bytes, writable |
| SecureBytes.Get | src/goryachev/memsafecrypto/CByteArray.java:29-32 | get reads byte index exactly when it is in range, read-only or not (IndexOutOfBounds otherwise) |
| SecureBytes.Set | src/goryachev/memsafecrypto/CByteArray.java:35-40 | set is refused on a read-only buffer before the index is looked at; otherwise it succeeds exactly in range and changes only byte index |
| SecureBytes.SetRange | src/goryachev/memsafecrypto/CByteArray.java:43-49 | set(index, src, offset, len) succeeds exactly on a writable buffer with both ranges in bounds, replaces bytes index .. index + len with src[offset .. offset + len] and leaves the position after them |
| SecureBytes.Freeze | src/goryachev/memsafecrypto/util/DirectArrayBase.java:37-40 | the buffer becomes read-only with its bytes kept |
| SecureBytes.ToReadOnly | src/goryachev/memsafecrypto/CByteArray.java:52-57 | toReadOnly gives a read-only copy with the same bytes |
| SecureBytes.ToReadOnlySlice | src/goryachev/memsafecrypto/CByteArray.java:60-66 | toReadOnly(offset, length) succeeds exactly for an empty slice or one inside the buffer, and holds exactly those bytes, read-only |
| SecureBytes.ReadOnlySlice | src/goryachev/memsafecrypto/CByteArray.java:75-81 | readOnly(src, offset, len) succeeds exactly for a slice inside src and holds it, read-only |
| SecureBytes.ReadOnlyCopy | src/goryachev/memsafecrypto/CByteArray.java:69-72 | readOnly(src) holds all of src, read-only |
| SecureBytes.WriteByte | src/goryachev/memsafecrypto/CByteArray.java:84-89 | write(int) succeeds exactly on a writable buffer with room, puts the low byte at the position and moves it by one |
| SecureBytes.WriteBytes | src/goryachev/memsafecrypto/CByteArray.java:92-97 | write(byte[]) succeeds exactly on a writable buffer with room for all of them, puts them at the position and moves it past them |
| SecureBytes.WriteLoopAppends | src/goryachev/memsafecrypto/CByteArray.java:110-114 | the loop from i puts exactly src[i .. len) at the position, and fails when src is too short or the buffer too full |
| SecureBytes.WriteFromCopiesUpToLen | src/goryachev/memsafecrypto/CByteArray.java:106-115 | write(b, off, len) is refused on a read-only buffer, does nothing for off >= len, and otherwise appends src[off .. len): len is an end index, not a count |
| SecureBytes.WriteAll | src/goryachev/memsafecrypto/CByteArray.java:100-103 | write(b) appends all of b at the position, on a writable buffer with room, and keeps size and flag |
| SecureBytes.ToByteArray | src/goryachev/memsafecrypto/CByteArray.java:118-128 | toByteArray returns every byte, in order |
| SecureBytes.SetThenGet | src/goryachev/memsafecrypto/CByteArray.java:29-40 | set then get gives the value back and other positions read as before |
| SecureBytes.ToReadOnlyFreezesCopy | src/goryachev/memsafecrypto/CByteArray.java:52-57 | the read-only copy has the bytes and refuses writes, while the original still takes them |
| SecureBytes.SliceOfSlice | src/goryachev/memsafecrypto/CByteArray.java:60-66 | a slice of a slice is the slice at the summed offset |
| SecureInts.Slot | src/goryachev/memsafecrypto/CIntArray.java:37 | `index * BYTES_PER_INT` is a multiple of 4, and exactly 4 * index while it fits an int |
| SecureInts.IndexInRange | src/goryachev/memsafecrypto/CIntArray.java:101-105 | an index below the length reaches its own element |
| SecureInts.CheckWriteable | src/goryachev/memsafecrypto/util/DirectArrayBase.java:61-67 | the guard fails (ReadOnly) exactly for a read-only array |
| SecureInts.PutInt | src/goryachev/memsafecrypto/CIntArray.java:113 | putInt at an in-range element replaces that element only |
| SecureInts.New | src/goryachev/memsafecrypto/CIntArray.java:15-18 | `new CIntArray(n)` allocates Slot(n) bytes: it fails exactly when that int is negative, and otherwise holds zeros, writable; for 0 <= n < 2^29 the length is n |
| SecureInts.CopyOf | src/goryachev/memsafecrypto/CIntArray.java:21-24 | the copy constructor gives the same elements, writable |
| SecureInts.Get | src/goryachev/memsafecrypto/CIntArray.java:101-105 | get succeeds exactly in range, read-only or not, and returns the element |
| SecureInts.Set | src/goryachev/memsafecrypto/CIntArray.java:108-114 | set is refused on a read-only array, succeeds exactly in range, and changes only that element |
| SecureInts.Add | src/goryachev/memsafecrypto/CIntArray.java:33-41 | add as written stores value, not the sum: refused when read-only, and otherwise the element becomes value |
| SecureInts.AddSum | src/goryachev/memsafecrypto/CIntArray.java:33-41 | add as intended: the element grows by value, wrapping as an int |
| SecureInts.AddDiscardsSum | src/goryachev/memsafecrypto/CIntArray.java:39-40 | adding 1 to an element holding 5 leaves 1 as written, and 6 as intended |
| SecureInts.AddAgreesWithSumOnlyFromZero | src/goryachev/memsafecrypto/CIntArray.java:33-41 | add as written and as intended agree exactly when the element was 0 |
| SecureInts.Subtract | src/goryachev/memsafecrypto/CIntArray.java:44-52 | subtract is refused when read-only, succeeds exactly in range, and lowers the element by value, wrapping |
| SecureInts.IncrementAndGet | src/goryachev/memsafecrypto/CIntArray.java:66-75 | incrementAndGet raises the element by one, wrapping, and returns the new value |
| SecureInts.Increment | src/goryachev/memsafecrypto/CIntArray.java:55-63 | increment raises the element by one, wrapping |
| SecureInts.DecrementAndGet | src/goryachev/memsafecrypto/CIntArray.java:89-98 | decrementAndGet lowers the element by one, wrapping, and returns the new value |
| SecureInts.Decrement | src/goryachev/memsafecrypto/CIntArray.java:78-86 | decrement lowers the element by one, wrapping |
| SecureInts.IncrementThenDecrement | src/goryachev/memsafecrypto/CIntArray.java:55-86 | decrement undoes increment, also across the wrap |
| SecureInts.Fill | src/goryachev/memsafecrypto/CIntArray.java:117-127 | fill is refused when read-only and otherwise sets every element to value |
| SecureInts.FillLoop | src/goryachev/memsafecrypto/CIntArray.java:122-126 | after the loop from i every element from i on holds value and the rest are unchanged |
| SecureInts.CopyLoop | src/goryachev/memsafecrypto/CIntArray.java:134-139 | the loop from pass i on succeeds exactly when every later pass can read `src[i + srcOffset]` and put at the wrapped offset `(i + toOffset) * 4`, fails only with IndexOutOfBounds, and keeps the element count |
| SecureInts.CopyLoopKeeps | src/goryachev/memsafecrypto/CIntArray.java:134-139 | an element that no pass from i on writes keeps its value |
| SecureInts.CopyLoopLast | src/goryachev/memsafecrypto/CIntArray.java:134-139 | the element of pass j, when no later pass writes it again, ends up holding src[j + srcOffset] |
| SecureInts.CopyLoopWrites | src/goryachev/memsafecrypto/CIntArray.java:134-139 | both facts for every element and every pass of the loop |
| SecureInts.Copy | src/goryachev/memsafecrypto/CIntArray.java:130-140 | copy is refused when read-only, and otherwise succeeds exactly when every pass can run, with the sums and the byte offset wrapping as in set; each element written holds src[i + srcOffset] of its last writer, and the rest keep their value |
| SecureInts.CopyStepInBounds | src/goryachev/memsafecrypto/CIntArray.java:136-138 | with non-negative offsets and targets below 2^29, pass i writes element toOffset + i from src[srcOffset + i] and can run exactly when both are in bounds |
| SecureInts.CopyInBoundsSucceeds | src/goryachev/memsafecrypto/CIntArray.java:130-140 | away from the wraps, copy succeeds exactly on a writable array with both ranges in bounds |
| SecureInts.CopyInBoundsAt | src/goryachev/memsafecrypto/CIntArray.java:130-140 | away from the wraps, element k after a successful copy is src[srcOffset + k - toOffset] inside the target range and keeps its value outside it |
| SecureInts.CopyInBounds | src/goryachev/memsafecrypto/CIntArray.java:130-140 | away from the wraps, a successful copy puts src[srcOffset .. srcOffset + length) at toOffset and keeps the rest |
| SecureInts.CopyOneIsSet | src/goryachev/memsafecrypto/CIntArray.java:108-113 | copying one element is set of it, on every toOffset, wrapped or not |
| SecureInts.CopyWrapsToFirst | src/goryachev/memsafecrypto/CIntArray.java:137 | copy(0x4000_0000, [v], 0, 1) on a writable one-element array writes element 0, since (0 + 2^30) * 4 wraps to 0 |
| SecureInts.Zero | src/goryachev/memsafecrypto/util/DirectArrayBase.java:70-78 | zero sets every element to 0, read-only or not |
| SecureInts.MutatorsRefuseReadOnly | src/goryachev/memsafecrypto/CIntArray.java:33-127 | every mutator refuses a read-only array while get and zero still work |
| SecureInts.SetThenGet | src/goryachev/memsafecrypto/CIntArray.java:101-114 | set then get gives the value back, and other elements read as before |
| SecureInts.ToArray | src/goryachev/memsafecrypto/CIntArray.java:143-152 | toArray returns every element in order |
| CUtils.IntToLE | src/goryachev/memsafecrypto/util/CUtils.java:106-112 | intToLittleEndian writes four bytes, the least significant first and the top byte last |
| CUtils.LEToInt | src/goryachev/memsafecrypto/util/CUtils.java:54-61 | littleEndianToInt takes the low byte from off and the top byte from off + 3 |
| CUtils.LEToIntOfIntToLE | src/goryachev/memsafecrypto/util/CUtils.java:54-112 | reading back a written word gives the word |
| CUtils.IntToLEOfLEToInt | src/goryachev/memsafecrypto/util/CUtils.java:54-112 | writing a read word gives the four bytes back |
| CUtils.IntsToLE | src/goryachev/memsafecrypto/util/CUtils.java:124-131 | intToLittleEndian(int[]) writes four bytes per word |
| CUtils.LEToInts | src/goryachev/memsafecrypto/util/CUtils.java:94-103 | littleEndianToInt(bs, off, count) reads count words |
| CUtils.LEToIntsAt | src/goryachev/memsafecrypto/util/CUtils.java:94-103 | word i comes from bytes off + 4i .. off + 4i + 3 |
| CUtils.IntsToLEAt | src/goryachev/memsafecrypto/util/CUtils.java:124-131 | bytes 4i .. 4i + 3 are word i |
| CUtils.LEToIntsOfIntsToLE | src/goryachev/memsafecrypto/util/CUtils.java:94-131 | unpacking packed words gives the words back |
| CUtils.IntsToLEOfLEToInts | src/goryachev/memsafecrypto/util/CUtils.java:94-131 | packing unpacked words gives the byte range back |
| CUtils.LEToIntsShift | src/goryachev/memsafecrypto/util/CUtils.java:94-103 | reading from offset k is reading from offset 0 of the suffix |
| CUtils.DecodeInto | src/goryachev/memsafecrypto/util/CUtils.java:84-91 | littleEndianToInt(bs, bOff, ns, nOff, count) succeeds exactly with both ranges in bounds (or nothing to do), puts the decoded words at nOff and keeps the other elements |
| CUtils.EncodeInto | src/goryachev/memsafecrypto/util/CUtils.java:134-141 | intToLittleEndian(ns, b, off) succeeds exactly when all of ns fits from off, writes bytes that decode to ns, and keeps the other bytes |
| CUtils.LEToIntsPrefix | src/goryachev/memsafecrypto/util/CUtils.java:94-103 | decoding looks only at the bytes it covers |
| CUtils.LongToLE | src/goryachev/memsafecrypto/util/CUtils.java:160-172 | longToLittleEndian writes the low word's bytes, then the high word's |
| CUtils.LEToLong | src/goryachev/memsafecrypto/util/CUtils.java:144-149 | littleEndianToLong takes the low word from off and the high word from off + 4, unsigned |
| CUtils.LEToLongOfLongToLE | src/goryachev/memsafecrypto/util/CUtils.java:144-172 | reading back a written long gives the long |
| CUtils.LowWordOfLongToLE | src/goryachev/memsafecrypto/util/CUtils.java:170 | the first four bytes hold the low word |
| CUtils.HighWordOfLongToLE | src/goryachev/memsafecrypto/util/CUtils.java:171 | the next four bytes hold the high word |
| CUtils.LongToLEOfLEToLong | src/goryachev/memsafecrypto/util/CUtils.java:144-172 | writing a read long gives the eight bytes back |
| CUtils.LongsToLE | src/goryachev/memsafecrypto/util/CUtils.java:168-172 | an Argon2 block of longs takes eight bytes per word |
| CUtils.LEToLongs | src/goryachev/memsafecrypto/util/CUtils.java:144-149 | count longs are read eight bytes apart |
| CUtils.LEToLongsOfLongsToLE | src/goryachev/memsafecrypto/util/CUtils.java:144-172 | unpacking packed longs gives them back |
| CUtils.ToByteArray | src/goryachev/memsafecrypto/util/CUtils.java:39-51 | toByteArray(String) keeps the low eight bits of each char, one byte per char |
| CUtils.CloneBytes | src/goryachev/memsafecrypto/util/CUtils.java:15-18 | clone(byte[]) keeps null as null and copies the content otherwise |
| CUtils.CloneBuffer | src/goryachev/memsafecrypto/util/CUtils.java:27-30 | clone(CByteArray) keeps null as null and otherwise gives a writable buffer with the same bytes |
| Crypto.Join | src/goryachev/crypto/Crypto.java:416-418 | the char made from two bytes has them as its high and low byte |
| Crypto.JoinSplit | src/goryachev/crypto/Crypto.java:397-418 | a char is its two bytes joined |
| Crypto.Packed | src/goryachev/crypto/Crypto.java:389-406 | two bytes per char |
| Crypto.PackedAt | src/goryachev/crypto/Crypto.java:400-404 | byte 2i is the high byte of char i and byte 2i + 1 its low byte |
| Crypto.UnpackedAt | src/goryachev/crypto/Crypto.java:414-419 | char i joins bytes 2i and 2i + 1 |
| Crypto.UnpackPacked | src/goryachev/crypto/Crypto.java:389-428 | bytes2chars(chars2bytes(cs)) == cs |
| Crypto.PackUnpacked | src/goryachev/crypto/Crypto.java:389-428 | chars2bytes(bytes2chars(b)) is b without a trailing odd byte |
| Crypto.PackedAppend | src/goryachev/crypto/Crypto.java:398-405 | one more char appends its two bytes |
| Crypto.Chars2Bytes | src/goryachev/crypto/Crypto.java:389-406 | chars2bytes keeps null as null, throws NegativeArraySize when 2 * length overflows an int, and otherwise returns the packed bytes, high byte first |
| Crypto.Bytes2Chars | src/goryachev/crypto/Crypto.java:409-428 | bytes2chars keeps null as null and otherwise returns length / 2 chars, each joining two bytes |
| Crypto.Copy | src/goryachev/crypto/Crypto.java:377-386 | copy returns null for null and an array with equal content otherwise |
| Crypto.Zero | src/goryachev/crypto/Crypto.java:94-107 | zero(byte[]) does nothing to null and otherwise sets every byte to 0, keeping the length |
| PBE.Init | src/goryachev/memsafecrypto/bc/PBEParametersGenerator.java:65-70 | init keeps read-only copies of password and salt and the count as given |
| PBE.InitCopies | src/goryachev/memsafecrypto/bc/PBEParametersGenerator.java:54-70 | the stored password and salt refuse writes, and the caller zeroing its password array leaves the stored password as it was |
| PBE.PKCS5PasswordToBytes | src/goryachev/memsafecrypto/bc/PBEParametersGenerator.java:113-130 | one byte per char, its low eight bits; null gives an empty buffer |
| PBE.PKCS5Recovers | src/goryachev/memsafecrypto/bc/PBEParametersGenerator.java:113-130 | a password of chars below 256 is recovered from its bytes |
| PBE.PKCS5PasswordToUTF8Bytes | src/goryachev/memsafecrypto/bc/PBEParametersGenerator.java:140-150 | null gives no bytes; otherwise the UTF-8 encoder's bytes |
| PBE.PKCS12PasswordToBytes | src/goryachev/memsafecrypto/bc/PBEParametersGenerator.java:160-179 | null or empty gives an empty buffer; a password too long for (length + 1) * 2 to fit an int fails; otherwise each char is two bytes, high byte first, followed by two zero bytes |
| PBE.PKCS12IsPackedWithTerminator | src/goryachev/memsafecrypto/bc/PBEParametersGenerator.java:160-179 | the PKCS12 bytes are chars2bytes of the password with a 0 char appended, and bytes2chars of them is that password |
| ByteInput.FromArray | src/goryachev/memsafecrypto/CByteArrayInputStream.java:19-24 | a stream over a whole buffer has every byte of it still to read |
| ByteInput.FromRangeAsWritten | src/goryachev/memsafecrypto/CByteArrayInputStream.java:27-33 | the range constructor as written copies buf[offset .. offset + length] into a new buffer but starts the position at offset and ends at offset + length, indices of the original array |
| ByteInput.FromRange | src/goryachev/memsafecrypto/CByteArrayInputStream.java:27-33 | the range constructor as intended: the stream yields exactly buf[offset .. offset + length] |
| ByteInput.Read | src/goryachev/memsafecrypto/CByteArrayInputStream.java:36-43 | read() on a valid stream returns the next byte as 0..255 and consumes it, or -1 at the end without moving |
| ByteInput.DrainReadsRemaining | src/goryachev/memsafecrypto/CByteArrayInputStream.java:36-43 | calling read() until -1 yields exactly the remaining bytes in order |
| ByteInput.CheckTarget | src/goryachev/memsafecrypto/CByteArrayInputStream.java:48-60 | a null target throws NullPointer; otherwise the range must lie inside the target or IndexOutOfBounds is thrown |
| ByteInput.Count | src/goryachev/memsafecrypto/CByteArrayInputStream.java:66-70 | the count is length cut to what is left |
| ByteInput.ReadIntoAsWritten | src/goryachev/memsafecrypto/CByteArrayInputStream.java:46-85 | read(target, offset, length) as written: `buffer.get(i + position)` with position also incremented, so byte j comes from position + 2j, and the call fails once that passes the buffer |
| ByteInput.LoopAsWritten | src/goryachev/memsafecrypto/CByteArrayInputStream.java:77-82 | the loop as written reads position + 2j - i in pass j |
| ByteInput.ReadInto | src/goryachev/memsafecrypto/CByteArrayInputStream.java:46-85 | read(target, offset, length) as intended: the argument errors as the source throws them, -1 at the end, and otherwise the next Count bytes copied to offset, consumed, with the rest of target kept |
| ByteInput.Loop | src/goryachev/memsafecrypto/CByteArrayInputStream.java:77-82 | the loop as intended copies consecutive bytes |
| ByteInput.ReadIntoAgreesWithRead | src/goryachev/memsafecrypto/CByteArrayInputStream.java:36-85 | a one-byte read(target, ...) gives the byte and the stream read() gives |
| ByteInput.Skip | src/goryachev/memsafecrypto/CByteArrayInputStream.java:88-98 | skip(n) skips n clamped to [0, available] and returns that count |
| ByteInput.Available | src/goryachev/memsafecrypto/CByteArrayInputStream.java:101-104 | available() is the number of bytes left |
| ByteInput.Mark | src/goryachev/memsafecrypto/CByteArrayInputStream.java:113-116 | mark remembers the position and ignores the limit |
| ByteInput.Reset | src/goryachev/memsafecrypto/CByteArrayInputStream.java:119-122 | reset returns to the mark |
| ByteInput.ResetRestoresMark | src/goryachev/memsafecrypto/CByteArrayInputStream.java:88-122 | mark, then a skip or a read, then reset gives back the marked stream and the same bytes to read |
| ByteInput.RangeConstructorMisreads | src/goryachev/memsafecrypto/CByteArrayInputStream.java:27-40 | over [1, 2] from offset 1 for one byte, the stream as written reads past its one-byte buffer, while the intended one yields 2 |
| ByteInput.RangeConstructorInvalid | src/goryachev/memsafecrypto/CByteArrayInputStream.java:27-33 | every non-empty range from an offset above 0 gives a stream whose position is outside its buffer |
| ByteInput.ReadIntoSkips | src/goryachev/memsafecrypto/CByteArrayInputStream.java:77-82 | reading two bytes from [1, 2, 3] gives [1, 3] as written and [1, 2] as intended; from [1, 2] the code as written fails |
| ByteOutput.Create | src/goryachev/memsafecrypto/util/CByteArrayOutputStream.java:21-28 | a negative capacity is refused with IllegalArgument; otherwise an empty stream of that capacity |
| ByteOutput.CreateDefault | src/goryachev/memsafecrypto/util/CByteArrayOutputStream.java:31-34 | the default stream is empty with capacity 256 |
| ByteOutput.Grow | src/goryachev/memsafecrypto/util/CByteArrayOutputStream.java:46-62 | grow refuses a request above MAX_SIZE with OutOfMemory, keeps the content, and gives the larger of twice the size and the request |
| ByteOutput.EnsureCapacity | src/goryachev/memsafecrypto/util/CByteArrayOutputStream.java:37-43 | nothing happens while the capacity is enough; otherwise it grows, keeping the content, or fails with OutOfMemory |
| ByteOutput.Write | src/goryachev/memsafecrypto/util/CByteArrayOutputStream.java:65-75 | write(src, offset, length) throws IndexOutOfBounds exactly for a range outside src, and otherwise appends src[offset .. offset + length] unless the capacity cannot grow |
| ByteOutput.WriteArray | src/goryachev/memsafecrypto/util/CByteArrayOutputStream.java:78-88 | the CByteArray form appends the same range of the buffer's bytes |
| ByteOutput.WriteByte | src/goryachev/memsafecrypto/util/CByteArrayOutputStream.java:91-95 | write(int) appends the low eight bits |
| ByteOutput.ToCByteArray | src/goryachev/memsafecrypto/util/CByteArrayOutputStream.java:98-101 | toCByteArray returns exactly the content, writable |
| ByteOutput.Zero | src/goryachev/memsafecrypto/util/CByteArrayOutputStream.java:104-113 | close and zero clear every byte of the buffer and keep the count |
| ByteOutput.RangeTestIsExact | src/goryachev/memsafecrypto/util/CByteArrayOutputStream.java:67 | the int test `(offset + length) - src.length > 0` rejects exactly the ranges outside src, also when offset + length overflows |
| ByteOutput.Appended | src/goryachev/memsafecrypto/util/CByteArrayOutputStream.java:72-74 | the copy after the content extends the content by the copied range |
| ByteOutput.WholeArrayRoundTrip | src/goryachev/memsafecrypto/util/CByteArrayOutputStream.java:21-101 | writing an array into a new stream and taking toCByteArray gives the array back |
| ByteOutput.WritesConcatenate | src/goryachev/memsafecrypto/util/CByteArrayOutputStream.java:65-75 | writing a and then b is writing a + b |
| ByteOutput.SumOverflowFailsInCopy | src/goryachev/memsafecrypto/util/CByteArrayOutputStream.java:72-73 | when size + length overflows, ensureCapacity sees a negative size and does nothing, and the copy fails with IndexOutOfBounds |
| MemCrypt.LowByte | src/goryachev/memsafecrypto/MemCrypt.java:88-91 | `(byte) x` keeps the low eight bits |
| MemCrypt.StaticEntropy | src/goryachev/memsafecrypto/MemCrypt.java:118-121 | `nextInt() & 0xff` is below 256 and keeps the draw's low byte |
| MemCrypt.BigEndian | src/goryachev/memsafecrypto/MemCrypt.java:105-111 | update(d, x) feeds four bytes, the top byte first |
| MemCrypt.FromBigEndian | src/goryachev/memsafecrypto/MemCrypt.java:105-111 | the int whose big-endian bytes are given has them as its top and bottom byte |
| MemCrypt.BigEndianRoundTrip | src/goryachev/memsafecrypto/MemCrypt.java:105-111 | the four bytes fed for x determine x |
| MemCrypt.KeyMaterial | src/goryachev/memsafecrypto/MemCrypt.java:86-94 | the digest is fed sixteen bytes |
| MemCrypt.KeyMaterialReadsBack | src/goryachev/memsafecrypto/MemCrypt.java:88-94 | the sixteen bytes are the four entropy bytes, then the hash codes of Object, String and MemCrypt, each big-endian, so the material determines all seven inputs |
| MemCrypt.GenerateKey | src/goryachev/memsafecrypto/MemCrypt.java:84-102 | generateKey returns a read-only 32-byte buffer |
| MemCrypt.KeyIsStable | src/goryachev/memsafecrypto/MemCrypt.java:83-102 | two sessions with the same entropy and hash codes get the same key |
| MemCrypt.NonceBuffer | src/goryachev/memsafecrypto/MemCrypt.java:35-36 | the nonce buffer holds the 24 bytes drawn |
| MemCrypt.Framed | src/goryachev/memsafecrypto/MemCrypt.java:32-38 | the output buffer of encryptedLength bytes exists exactly when that int is at least 24 (a negative length fails with IllegalArgument) and then starts with the nonce, writable |
| MemCrypt.Encrypt | src/goryachev/memsafecrypto/MemCrypt.java:30-53 | encrypt returns data.length() + 24 bytes and leaves the key buffer zeroed |
| MemCrypt.Decrypt | src/goryachev/memsafecrypto/MemCrypt.java:56-80 | decrypt of fewer than 24 bytes fails with EndOfStream before a key exists; a result has data.length() - 24 bytes and the key buffer is zeroed |
| MemCrypt.EncryptTooLarge | src/goryachev/memsafecrypto/MemCrypt.java:32-33 | when data.length() + 24 wraps negative, `new CByteArray` fails and no key is made |
| MemCrypt.EncryptUnfolds | src/goryachev/memsafecrypto/MemCrypt.java:30-53 | encrypt is XSalsa20 under the generated key and nonce from offset 24 of the framed buffer |
| MemCrypt.DecryptUnfolds | src/goryachev/memsafecrypto/MemCrypt.java:56-80 | decrypt is XSalsa20 under the generated key and the first 24 bytes as nonce, over the rest |
| MemCrypt.NonceKept | src/goryachev/memsafecrypto/MemCrypt.java:38-45 | encrypting from offset 24 keeps the nonce in front |
| MemCrypt.EncryptNoncePrefix | src/goryachev/memsafecrypto/MemCrypt.java:30-53 | the blob starts with the nonce |
| MemCrypt.RoundTripSucceeds | src/goryachev/memsafecrypto/MemCrypt.java:30-80 | decrypting what encrypt returned succeeds and gives data.length() bytes |
| MemCrypt.RoundTrip | src/goryachev/memsafecrypto/MemCrypt.java:14-80 | within one session decrypt(encrypt(x)) == x, byte for byte |
| Argon2Params.IntShiftOne | src/goryachev/memsafecrypto/bc/Argon2Parameters.java:149 | `1 << k` is 2^k below 31, the sign bit at 31, and takes the distance modulo 32 |
| Argon2Params.NewBuilder | src/goryachev/memsafecrypto/bc/Argon2Parameters.java:145-152 | a new builder has one lane, 4096 KiB, three passes, version 0x13 and no salt, secret or associated data |
| Argon2Params.DefaultBuilder | src/goryachev/memsafecrypto/bc/Argon2Parameters.java:136-139 | the no-argument builder is the Argon2i builder |
| Argon2Params.SettersReplaceOneField | src/goryachev/memsafecrypto/bc/Argon2Parameters.java:160-236 | each with-setter replaces its own field, keeps every other field, and keeps the caller's buffer without a copy |
| Argon2Params.MemoryPowOfTwoWraps | src/goryachev/memsafecrypto/bc/Argon2Parameters.java:224-228 | withMemoryPowOfTwo(m) equals withMemoryAsKB(2^m) for m up to 30; m = 31 gives a negative memory and m = 32 gives 1 |
| Argon2Params.ReadOnlyOf | src/goryachev/memsafecrypto/bc/Argon2Parameters.java:40-42 | null stays null; a buffer becomes a read-only buffer with the same bytes |
| Argon2Params.Build | src/goryachev/memsafecrypto/bc/Argon2Parameters.java:38-49 | the built parameters hold the builder's numbers and read-only copies of its salt, secret and associated data, with null kept as null |
| Argon2Params.BuiltBuffersRefuseWrites | src/goryachev/memsafecrypto/bc/Argon2Parameters.java:38-49 | every write to a buffer of built parameters fails with the read-only error |
| Argon2Params.ZeroOf | src/goryachev/memsafecrypto/Crypto.java:15-29 | zeroing keeps null as null and a buffer's size and flag, and leaves only zero bytes |
| Argon2Params.Clear | src/goryachev/memsafecrypto/bc/Argon2Parameters.java:106-111 | clear zeroes the salt, the secret and the associated data and changes none of the numbers |
| Argon2Params.ClearBuilder | src/goryachev/memsafecrypto/bc/Argon2Parameters.java:252-257 | the builder's clear zeroes the caller's three buffers and changes none of the numbers |
| Argon2Params.ClearZeroesBuilt | src/goryachev/memsafecrypto/bc/Argon2Parameters.java:106-111 | clearing built parameters succeeds although their buffers are read-only: all their bytes become 0, their sizes stay, the numbers stay |
| Argon2.InitCheck | src/goryachev/memsafecrypto/bc/Argon2BytesGenerator.java:56-76 | init accepts exactly 1 <= lanes <= 2^24, memory >= 2 lanes and passes >= 1, and refuses anything else with IllegalStateException |
| Argon2.DoInit | src/goryachev/memsafecrypto/bc/Argon2BytesGenerator.java:158-176 | memory is raised to at least 8 blocks per lane and cut to a whole number of segments, losing fewer than 4 blocks per lane |
| Argon2.Aligned | src/goryachev/memsafecrypto/bc/Argon2BytesGenerator.java:166-171 | rounding down to whole segments gives at most the requested blocks, fewer than 4 per lane short, and at least 8 per lane |
| Argon2.BlocksByLanes | src/goryachev/memsafecrypto/bc/Argon2BytesGenerator.java:169-171 | the memory holds lanes times laneLength blocks |
| Argon2.SegmentBounds | src/goryachev/memsafecrypto/bc/Argon2BytesGenerator.java:169-171 | with at least 8 blocks per lane a segment has at least two blocks, and rounding loses fewer than 4 per lane |
| Argon2.Init | src/goryachev/memsafecrypto/bc/Argon2BytesGenerator.java:56-76 | init succeeds exactly when the parameter checks pass; the memory then has the aligned number of blocks, all zero |
| Argon2.PrevOffset | src/goryachev/memsafecrypto/bc/Argon2BytesGenerator.java:293-305 | the previous block lies in the same lane: the one before, or the lane's last block at a lane start |
| Argon2.LaneWrapsBack | src/goryachev/memsafecrypto/bc/Argon2BytesGenerator.java:295-299 | from a lane start, adding laneLength - 1 reaches the last block of the same lane |
| Argon2.LaneStepsBack | src/goryachev/memsafecrypto/bc/Argon2BytesGenerator.java:300-304 | away from a lane start, one block back stays in the same lane |
| Argon2.RefLane | src/goryachev/memsafecrypto/bc/Argon2BytesGenerator.java:349-359 | the reference lane is the high word modulo the lane count, except in the first slice of the first pass where it is the current lane |
| Argon2.RelativePosition | src/goryachev/memsafecrypto/bc/Argon2BytesGenerator.java:396-398 | the squared-and-scaled low word always falls inside the reference area |
| Argon2.LowWord | src/goryachev/memsafecrypto/bc/Argon2BytesGenerator.java:396 | masking with 0xFFFFFFFFL gives a value below 2^32 |
| Argon2.RelativeBounds | src/goryachev/memsafecrypto/bc/Argon2BytesGenerator.java:396-398 | neither product overflows a long and the result lies in 0 .. size - 1 |
| Argon2.SquareBelow | src/goryachev/memsafecrypto/bc/Argon2BytesGenerator.java:397 | the square of a 32-bit value fits in an unsigned long |
| Argon2.ScaleBelow | src/goryachev/memsafecrypto/bc/Argon2BytesGenerator.java:398 | size times a 32-bit value, shifted down by 32, is below size |
| Argon2.RefColumn | src/goryachev/memsafecrypto/bc/Argon2BytesGenerator.java:362-401 | the reference column lies in the lane and in the area RFC 9106 section 3.4.1.2 allows: never the current or the previous block, never an unfilled block |
| Argon2.SliceStart | src/goryachev/memsafecrypto/bc/Argon2BytesGenerator.java:374-392 | slice times segmentLength for each of the four slices |
| Argon2.AreaSizeBounds | src/goryachev/memsafecrypto/bc/Argon2BytesGenerator.java:364-394 | in every call fillSegment makes, the reference area is non-empty, smaller than a lane and fits an int |
| Argon2.AreaHolds | src/goryachev/memsafecrypto/bc/Argon2BytesGenerator.java:362-401 | every position inside the area, counted from the start position, lands on an allowed column |
| Argon2.LaterPassStart | src/goryachev/memsafecrypto/bc/Argon2BytesGenerator.java:384 | after the first pass the area starts at the segment after the current one, wrapping to 0 after the last |
| Argon2.LaterPassArea | src/goryachev/memsafecrypto/bc/Argon2BytesGenerator.java:382-394 | after the first pass every position of the area lands on an allowed column |
| Argon2.RefColumnAsWritten | src/goryachev/memsafecrypto/bc/Argon2BytesGenerator.java:400 | with the int cast before the remainder, the column lies strictly between -laneLength and laneLength |
| Argon2.RefColumnAgrees | src/goryachev/memsafecrypto/bc/Argon2BytesGenerator.java:400 | the cast is harmless while a lane has at most 2^30 blocks |
| Argon2.RefColumnWrapsNegative | src/goryachev/memsafecrypto/bc/Argon2BytesGenerator.java:400 | with memory = INT_MAX KiB and one lane, a later pass computes column -1073741832 where 1073741820 is meant |
| Argon2.NextAddresses | src/goryachev/memsafecrypto/bc/Argon2BytesGenerator.java:321-326 | word 6 of the input block goes up by one, the other words stay, and the address block is G(0, G(0, input)) |
| Argon2.HeaderKept | src/goryachev/memsafecrypto/bc/Argon2BytesGenerator.java:270-284 | generating address blocks never changes the header words 0-5 |
| Argon2.InitAddressBlocks | src/goryachev/memsafecrypto/bc/Argon2BytesGenerator.java:270-284 | the first address block is generated ahead exactly when filling starts at column 2 |
| Argon2.OffsetFacts | src/goryachev/memsafecrypto/bc/Argon2BytesGenerator.java:217-254 | each offset of a segment is inside memory at its column of the lane, and the previous offset of the next column is the current one |
| Argon2.LaneSlot | src/goryachev/memsafecrypto/bc/Argon2BytesGenerator.java:233 | a column of a lane is inside memory |
| Argon2.FillSegmentFrom | src/goryachev/memsafecrypto/bc/Argon2BytesGenerator.java:229-254 | the rest of a segment's loop writes only the blocks from the current offset to the segment end |
| Argon2.FillStep | src/goryachev/memsafecrypto/bc/Argon2BytesGenerator.java:231-253 | one turn writes only the current block, and that block is the next turn's previous block |
| Argon2.AddressBlockOf | src/goryachev/memsafecrypto/bc/Argon2BytesGenerator.java:331-341 | the address block in use at column i is the one generated ahead, plus a new one at each multiple of 128 |
| Argon2.CeilStep | src/goryachev/memsafecrypto/bc/Argon2BytesGenerator.java:335-339 | a column takes a new address block exactly at multiples of 128 |
| Argon2.RefIndex | src/goryachev/memsafecrypto/bc/Argon2BytesGenerator.java:233-235 | the reference block index is inside memory |
| Argon2.LaneOf | src/goryachev/memsafecrypto/bc/Argon2BytesGenerator.java:349-359 | the reference lane is one of the lanes |
| Argon2.ColumnOf | src/goryachev/memsafecrypto/bc/Argon2BytesGenerator.java:362-401 | the reference column is one of the lane's columns |
| Argon2.FillSegment | src/goryachev/memsafecrypto/bc/Argon2BytesGenerator.java:213-255 | fillSegment writes only the blocks of its own segment, from the starting index on |
| Argon2.FillLanes | src/goryachev/memsafecrypto/bc/Argon2BytesGenerator.java:201-206 | the lanes of one slice keep the memory size |
| Argon2.FillSlices | src/goryachev/memsafecrypto/bc/Argon2BytesGenerator.java:197-207 | the four slices keep the memory size |
| Argon2.FillPasses | src/goryachev/memsafecrypto/bc/Argon2BytesGenerator.java:193-208 | the passes keep the memory size |
| Argon2.FillMemoryBlocks | src/goryachev/memsafecrypto/bc/Argon2BytesGenerator.java:190-210 | filling keeps the memory size |
| Argon2Block.ZeroBlock | src/goryachev/memsafecrypto/bc/Argon2BytesGenerator.java:698-701 | a new or cleared block holds 128 zero words |
| Argon2Block.Xor | src/goryachev/memsafecrypto/bc/Argon2BytesGenerator.java:732-742 | word i of the result is the xor of word i of the two blocks |
| Argon2Block.QuarterRound | src/goryachev/memsafecrypto/bc/Argon2BytesGenerator.java:500-514 | word x becomes fBlaMka(v[x], v[y]), word z becomes (v[z] xor new v[x]) rotated right by s, every other word stays |
| Argon2Block.FByIsGB | src/goryachev/memsafecrypto/bc/Argon2BytesGenerator.java:491-497 | F on four distinct positions is the function GB of RFC 9106 section 3.6 applied to those words |
| Argon2Block.QuarterRoundStep | src/goryachev/memsafecrypto/bc/Argon2BytesGenerator.java:500-514 | on distinct positions a quarter round is two updates of the array |
| Argon2Block.RoundOrderOk | src/goryachev/memsafecrypto/bc/Argon2BytesGenerator.java:479-486 | the eight calls of roundFunction use four distinct places of the sixteen each |
| Argon2Block.Gather | src/goryachev/memsafecrypto/bc/Argon2BytesGenerator.java:475 | the sixteen words at the given positions, in order |
| Argon2Block.GatherF | src/goryachev/memsafecrypto/bc/Argon2BytesGenerator.java:491-497 | F in place, seen at the sixteen positions, is GB on the gathered words |
| Argon2Block.FStepsGather | src/goryachev/memsafecrypto/bc/Argon2BytesGenerator.java:475-487 | the sequence of F calls, seen at the sixteen positions, is the sequence of GB steps |
| Argon2Block.RoundFunctionIsP | src/goryachev/memsafecrypto/bc/Argon2BytesGenerator.java:475-487 | roundFunction on sixteen distinct positions is the permutation P of RFC 9106 section 3.6 on those words |
| Argon2Block.FByFrame | src/goryachev/memsafecrypto/bc/Argon2BytesGenerator.java:491-497 | F changes no position other than its four |
| Argon2Block.FStepsFrame | src/goryachev/memsafecrypto/bc/Argon2BytesGenerator.java:475-487 | the F calls change no position outside the sixteen |
| Argon2Block.RoundFunctionFrame | src/goryachev/memsafecrypto/bc/Argon2BytesGenerator.java:475-487 | roundFunction changes no word outside its sixteen positions |
| Argon2Block.Position | src/goryachev/memsafecrypto/bc/Argon2BytesGenerator.java:643-657 | place k of step j of a pass is a word of the block that belongs to step j at place k |
| Argon2Block.GroupCovers | src/goryachev/memsafecrypto/bc/Argon2BytesGenerator.java:643-657 | every word of the block is worked on in exactly one step of each pass |
| Argon2Block.Positions | src/goryachev/memsafecrypto/bc/Argon2BytesGenerator.java:643-657 | the sixteen positions of one step are distinct words of the block, all of that step |
| Argon2Block.RoundActsAsP | src/goryachev/memsafecrypto/bc/Argon2BytesGenerator.java:475-514 | roundFunction acts as P on the words it is given and keeps every other word |
| Argon2Block.PassSpec | src/goryachev/memsafecrypto/bc/Argon2BytesGenerator.java:643-657 | after n steps of a pass, each of the first n groups holds P of its old words and every later group is untouched |
| Argon2Block.StepActs | src/goryachev/memsafecrypto/bc/Argon2BytesGenerator.java:645-646 | one step applies P to its group and keeps every other word |
| Argon2Block.PassStep | src/goryachev/memsafecrypto/bc/Argon2BytesGenerator.java:643-657 | the induction step of a pass |
| Argon2Block.GatherSame | src/goryachev/memsafecrypto/bc/Argon2BytesGenerator.java:643-657 | blocks that agree on a group gather the same words for it |
| Argon2Block.ApplyBlakeIsP | src/goryachev/memsafecrypto/bc/Argon2BytesGenerator.java:639-658 | applyBlake applies P to each group of 16 consecutive words, then to each group of the second pattern, as RFC 9106 section 3.5 describes |
| Argon2Block.FillBlock | src/goryachev/memsafecrypto/bc/Argon2BytesGenerator.java:669-675 | the new block is R xor P-compression(R) with R = X xor Y |
| Argon2Block.FillBlockFrom | src/goryachev/memsafecrypto/bc/Argon2BytesGenerator.java:661-666 | the address block is Y xor compression(Y) |
| Argon2Block.FillBlockWithXor | src/goryachev/memsafecrypto/bc/Argon2BytesGenerator.java:678-684 | version 0x13 xors the new block into the old contents |
| Argon2Block.FillBlockFromIsZeroFill | src/goryachev/memsafecrypto/bc/Argon2BytesGenerator.java:661-675 | the one-block fillBlock is the two-block one with X = 0 |
| Argon2Block.FromBytes | src/goryachev/memsafecrypto/bc/Argon2BytesGenerator.java:704-712 | fromBytes refuses fewer than 1024 bytes with IllegalArgumentException and otherwise reads word i little-endian at byte 8 i |
| Argon2Block.ToBytes | src/goryachev/memsafecrypto/bc/Argon2BytesGenerator.java:715-723 | toBytes refuses an output below 1024 bytes and otherwise keeps every byte after the first 1024 |
| Argon2Block.BytesRoundTrip | src/goryachev/memsafecrypto/bc/Argon2BytesGenerator.java:704-723 | a block written by toBytes and read by fromBytes is the same block |
| Argon2Block.LEToLongsAt | src/goryachev/memsafecrypto/util/CUtils.java:144-149 | word i of an unpacked run comes from bytes 8 i on |
| Argon2Block.LEToLongsPrefix | src/goryachev/memsafecrypto/util/CUtils.java:144-149 | unpacking reads only the bytes it covers |
| Argon2Hash.Le32 | src/goryachev/memsafecrypto/bc/Argon2BytesGenerator.java:426-427 | the output length is written as four bytes |
| Argon2Hash.Pieces | src/goryachev/memsafecrypto/bc/Argon2BytesGenerator.java:453-464 | the piece count of H' in exact arithmetic: above 64 bytes at least one 32-byte piece is taken and the last digest is 33 to 64 bytes long |
| Argon2Hash.Chain | src/goryachev/memsafecrypto/bc/Argon2BytesGenerator.java:449-470 | k pieces and a final digest give 32 k + last bytes |
| Argon2Hash.HPrimeSpec | src/goryachev/memsafecrypto/bc/Argon2BytesGenerator.java:424-472 | H' has exactly outLen bytes |
| Argon2Hash.PiecesAsWritten | src/goryachev/memsafecrypto/bc/Argon2BytesGenerator.java:453 | r = ((outLen + 31) / 32) - 2 on ints is the piece count up to INT_MAX - 31, and negative above, where outLen + 31 wraps |
| Argon2Hash.LastLength | src/goryachev/memsafecrypto/bc/Argon2BytesGenerator.java:464 | lastLength = outLen - 32 r on ints is the 33 to 64 bytes of the last digest up to INT_MAX - 31; 33 at INT_MAX - 30; outLen - (INT_MAX - 31) above |
| Argon2Hash.LastLengthWrapped | src/goryachev/memsafecrypto/bc/Argon2BytesGenerator.java:453-464 | above INT_MAX - 31, r is -(2^26 + 2) at INT_MAX - 30 and -(2^26 + 1) above, and 32 r wraps back to leave the last length |
| Argon2Hash.Hash | src/goryachev/memsafecrypto/bc/Argon2BytesGenerator.java:424-472 | the bytes hash writes: H'^outLen of RFC 9106 up to INT_MAX - 31; above, only the first half of V_1 and a last digest of LastLength bytes, 34 to 65 in all |
| Argon2Hash.HashAtIntMax | src/goryachev/memsafecrypto/bc/Argon2BytesGenerator.java:453-470 | at outLen = INT_MAX, r = -67108865, lastLength = 31, and hash writes 63 bytes |
| Argon2Hash.HPrime | src/goryachev/memsafecrypto/bc/Argon2BytesGenerator.java:424-472 | the loop of hash writes exactly Hash, the bytes as written; up to outLen = INT_MAX - 31 that is H'^T of RFC 9106 section 3.3, outLen bytes: the first halves of V_1 .. V_r and then the last digest |
| Argon2Hash.TakePieces | src/goryachev/memsafecrypto/bc/Argon2BytesGenerator.java:449-470 | the loop over i = 2 .. r produces the chain of first halves, each digest made from the one before, then the last digest; for r < 2 it makes no pass and the last digest is made from V_1 |
| Argon2Hash.IterShift | src/goryachev/memsafecrypto/bc/Argon2BytesGenerator.java:455-462 | starting the chain one digest later is taking one more step |
| Argon2Hash.FirstsShift | src/goryachev/memsafecrypto/bc/Argon2BytesGenerator.java:449-462 | the first halves from V_1 on are V_1's half followed by those from V_2 on |
| Argon2Hash.ChainIsFirsts | src/goryachev/memsafecrypto/bc/Argon2BytesGenerator.java:449-470 | the recursive chain equals the loop's first halves followed by the final digest made from V_r |
| Argon2Generate.ByteString | src/goryachev/memsafecrypto/bc/Argon2BytesGenerator.java:584-595 | a null buffer adds four zero bytes; otherwise its length little-endian, then its bytes |
| Argon2Generate.PreHashInput | src/goryachev/memsafecrypto/bc/Argon2BytesGenerator.java:535-568 | the message for H0 is at least the 24 header bytes and four length fields |
| Argon2Generate.HeaderReadsBack | src/goryachev/memsafecrypto/bc/Argon2BytesGenerator.java:545-556 | the first 24 bytes read back as lanes, output length, memory, passes, version and type, in that order |
| Argon2Generate.PackedReadsBack | src/goryachev/memsafecrypto/util/CUtils.java:124-131 | packed ints read back whatever follows them |
| Argon2Generate.PreHash | src/goryachev/memsafecrypto/bc/Argon2BytesGenerator.java:535-578 | H0 is a 64-byte digest |
| Argon2Generate.Seed | src/goryachev/memsafecrypto/bc/Argon2BytesGenerator.java:602-613 | the 72-byte seed is H0, then k and three zero bytes, then the lane number little-endian |
| Argon2Generate.FirstBlockWords | src/goryachev/memsafecrypto/bc/Argon2BytesGenerator.java:612-616 | word i of a first block is bytes 8 i .. 8 i + 7 of H'^1024 of its seed |
| Argon2Generate.LaneStart | src/goryachev/memsafecrypto/bc/Argon2BytesGenerator.java:612-616 | the first two columns of each lane lie inside memory, at columns 0 and 1 |
| Argon2Generate.FillFirstFrom | src/goryachev/memsafecrypto/bc/Argon2BytesGenerator.java:602-619 | fillFirstBlocks from a lane on leaves the earlier lanes alone |
| Argon2Generate.SeedLane | src/goryachev/memsafecrypto/bc/Argon2BytesGenerator.java:609-617 | one turn stores the two seed blocks at columns 0 and 1 of its lane and nothing else |
| Argon2Generate.SeedAt | src/goryachev/memsafecrypto/bc/Argon2BytesGenerator.java:612-616 | two stores at a lane start change only those two blocks |
| Argon2Generate.FirstBlocksSeeded | src/goryachev/memsafecrypto/bc/Argon2BytesGenerator.java:602-619 | after fillFirstBlocks every lane starts with its two seed blocks |
| Argon2Generate.FirstBlocksFrame | src/goryachev/memsafecrypto/bc/Argon2BytesGenerator.java:602-619 | fillFirstBlocks writes nothing beyond the first two columns of each lane |
| Argon2Generate.FinalBlock | src/goryachev/memsafecrypto/bc/Argon2BytesGenerator.java:404-413 | digest's loop computes the xor of the last blocks of all lanes |
| Argon2Generate.LastBlocksStep | src/goryachev/memsafecrypto/bc/Argon2BytesGenerator.java:409-413 | each turn xors in the last block of the next lane |
| Argon2Generate.Tag | src/goryachev/memsafecrypto/bc/Argon2BytesGenerator.java:115-137 | the tag digest writes: up to INT_MAX - 31 it is the intended tag of outLen bytes; above, it is 32 + LastLength bytes, 34 to 65 and fewer than outLen |
| Argon2Generate.FinalBytes | src/goryachev/memsafecrypto/bc/Argon2BytesGenerator.java:404-415 | the bytes of the final block, the xor of the lanes' last blocks after H0, the first blocks and every pass: 1024 bytes |
| Argon2Generate.TagIntended | src/goryachev/memsafecrypto/bc/Argon2BytesGenerator.java:115-137 | the tag as intended, H'^outLen of RFC 9106 section 3.3 of the final bytes, has exactly outLen bytes |
| Argon2Generate.GenerateBytes | src/goryachev/memsafecrypto/bc/Argon2BytesGenerator.java:115-137 | an output length below 4 is refused with IllegalStateException; otherwise the tag as written, of H0, the first blocks, every pass and digest, goes to Finish, which states the effect on the output and the generator |
| Argon2Generate.GenerateBytesIntended | src/goryachev/memsafecrypto/bc/Argon2BytesGenerator.java:115-137 | generateBytes with the intended tag: refused below 4 bytes; otherwise it succeeds exactly for a writable output with room for outLen bytes at outOff, returns outLen and writes the intended tag there, leaving the bytes around it |
| Argon2Generate.GenerateBytesAgree | src/goryachev/memsafecrypto/bc/Argon2BytesGenerator.java:115-137 | up to outLen = INT_MAX - 31 generateBytes as written is generateBytes as intended |
| Argon2Generate.GenerateBytesAtIntMax | src/goryachev/memsafecrypto/bc/Argon2BytesGenerator.java:115-137 | outLen = INT_MAX into a writable 64-byte output: as written it succeeds, returns INT_MAX and leaves byte 63 untouched; as intended it is refused |
| Argon2Generate.Finish | src/goryachev/memsafecrypto/bc/Argon2BytesGenerator.java:127-132 | the whole tag lands at outOff and nothing else of the output changes, outLen is returned whatever the tag's length, the memory is cleared and the secret and associated data are zeroed; a read-only output, or one too short for the tag, is refused |
| Argon2Generate.Reset | src/goryachev/memsafecrypto/bc/Argon2BytesGenerator.java:141-155 | reset clears every block |
| Argon2Generate.RunForgetsSecret | src/goryachev/memsafecrypto/bc/Argon2BytesGenerator.java:547-568 | after a run the generator no longer depends on the secret or the associated data: runs that differ only in those end in the same generator |
| Argon2Generate.FinishForgets | src/goryachev/memsafecrypto/bc/Argon2BytesGenerator.java:127-132 | Finish on generators whose secrets zero alike, with tags of one length, succeeds for both or neither and leaves the same generator |
| Argon2Generate.ZeroSameShape | src/goryachev/memsafecrypto/Crypto.java:15-29 | zeroing makes buffers of the same shape equal |

## Left out

- BLAKE2b, PBKDF2-HMAC-SHA256, the UTF-8 encoder, `SecureRandom` and `hashCode`: the digest and encoder code is not part of this model, and the others depend on the environment. Each enters as a function-typed parameter. Only the output length of each is assumed.
- Poly1305 and the stream adapters (`XSalsa20EncryptStream`, `XSalsa20DecryptStream`, `CryptoTools`): their code is not part of this model.
- Concurrency and `synchronized` blocks: none of the modelled operations depends on them.
- MemCrypt.Encrypt: the source writes through `XSalsa20EncryptStream` (MemCrypt.java:38-45). The model substitutes `XSalsaTools.Encrypt` over the framed buffer from offset 24, because that stream's code is not part of this model.
- MemCrypt.Decrypt: the source reads the nonce with `CryptoTools.readFully` from a `CByteArrayInputStream`. It then decrypts through `XSalsa20DecryptStream`, given `data.length()` rather than `data.length() - 24` as the length (MemCrypt.java:58-72). The model substitutes `XSalsaTools.Decrypt` over bytes 24 and on, and reads the nonce by slicing. If that stream reads through `CByteArrayInputStream.read(byte[], int, int)` as written, `ByteInput.ReadIntoSkips` shows it would take every second byte. `MemCrypt.RoundTrip` therefore rests on this substitution.
- SalsaStream.ProcessLoop: an index that fails part-way ends the call with only the error. In the source, out[0..k), the index, the counter and the limit have already changed.
- SalsaStream.ReturnByteBy / SalsaStream.ProcessBytesBy: a refused call returns only the error. In the source, limitExceeded has already advanced cW0-cW2, so a repeated call may pass.
- SalsaSkip.SkipBackward / SalsaCounter.RetreatCounterBy: a refused step back returns only the error. In the source, retreatCounter(long) has already subtracted the high word, and skip's step-back loop may stop part-way without regenerating the keystream.
- DirectArray.CopyBytes, SecureInts.Copy and SecureBytes.WriteAll: a failing copy returns only the error. In the source, the bytes before the failing index are already written.
- DirectArray.CopyIsDeep / PBE.InitCopies: buffers are values, so aliasing and in-place use of one buffer as both source and target cannot be expressed. Deep copies hold by construction.
- CUtils.DecodeInto / CUtils.EncodeInto: the target is a value, so CIntArray.set's read-only check on it is not modelled.
- Scrypt.GenerateAsWritten: excludes only the inputs whose checks pass while 128 r p exceeds INT_MAX. The checks bound 1024 r p exactly only below r = 2^21, and refuse 2^21 <= r <= 2^22. So these inputs have 2^22 < r < 2^24 with p >= 2, or r >= 2^24. There `r * 128` or `p * MFLenBytes` wraps (SCrypt.java:80-81), and SingleIterationPBKDF2 is asked for a wrapped, possibly negative count. The PBKDF2 generator that receives it is not part of this model. Inputs the checks pass with 128 r p within an int, such as N = 2, r = 2^22 + 1, p = 1 (Scrypt.WrappedCheckGivesKey), are modelled.
- Scrypt.SMix / Scrypt.MFcrypt / Argon2Generate.GenerateBytes: an OutOfMemoryError from an allocation whose size fits an int but exceeds the memory available is not modelled. Only the sizes that wrap are modelled.
- Scrypt.SMix / Scrypt.MFcrypt: the zeroing of B, bytes, X, blockX1, blockX2, blockY and the chunks VV on exit (SCrypt.java:114-118, 179-187) is not modelled. The working arrays are values that the result does not hold.
- ByteOutput: `CByteArray.copyFrom`, `sizeInBytes` and the `CByteArray(buffer, 0, size)` constructor that the output stream calls are not in CByteArray.java. They are modelled as the plain copies their names describe.
- `CUtils.littleEndianToLong(CByteArray, int, CLongArray)` and `longToLittleEndian(CLongArray, CByteArray, int)`, used by Argon2's Block, are not in CUtils.java. They are modelled as the per-word loop over the single-long versions (`CUtils.LEToLongs`, `CUtils.LongsToLE`).
- `CByteArray.readOnly(CByteArray)`, used by Argon2Parameters, is not in CByteArray.java. It is modelled as a null-preserving read-only copy.
- Salsa20 processBytes: the four overloads (byte[] or CByteArray for input and output) share one model, with a byte[] taken as a writable buffer.
- Argon2 `CharToByteConverter`, `withCharToByteConverter` and the `CCharArray` overloads of generateBytes: they convert through the UTF-8 parameter and zero the converted password.
- Argon2 `generateBytes(password, out)`: it is the four-argument call with offset 0 and `out.length()`, so it is not modelled separately.
- Argon2 `tmpBlockBytes` and the `FillBlock` scratch blocks R and Z: these working buffers live in place in the source. The model computes blocks as values and does not model their zeroing.
- Argon2Generate.Finish: on a refused output (read-only, or too short for outOff + outLen), the source has already zeroed the secret and the associated data and leaves the memory filled. The model returns only the error.
- Argon2.FillLanes / Argon2.FillSlices / Argon2.FillPasses / Argon2.FillMemoryBlocks: their contracts state only that the memory size is kept. The block contents follow from FillSegment, whose frame and reference rules are proved. No separate RFC 9106 reference for the whole fill is stated.
- Argon2Generate.PreHash / Argon2Generate.FinalBytes / Argon2Generate.TagIntended: their contracts state only the output length. The parts they combine (`ByteString`, `HeaderReadsBack`, `FirstBlocksSeeded`, `FinalBlock`, `HPrime`) carry the meaning.
- SalsaCore.SalsaCore: it is not checked against a published Salsa20 test vector, because evaluating twenty rounds on constants is beyond the solver's budget here. The double-round table and its invertibility are the partners instead.

## Findings

| source | as written | input that shows it | evidently intended | confidence | as-written member | corrected member |
|---|---|---|---|---|---|---|
| src/goryachev/memsafecrypto/CIntArray.java:40 | `add` computes `v += value` but stores `value` | element 5, add 1: the element becomes 1 | the element becomes v + value, wrapping as an int (6) | high; not executed | SecureInts.Add, SecureInts.AddDiscardsSum | SecureInts.AddSum |
| src/goryachev/memsafecrypto/bc/Salsa20Engine.java:161-166 | advanceCounter(long) goes through `add`, so it overwrites counter words 8 and 9 with the step | counter 1, advanceCounter(1): the counter stays 1; from position 64, skip(64) stays at 64 | the counter moves by the step (to 2), and skip(64) reaches 128 | high; not executed | SalsaCounter.AdvanceCounterByAsWritten, SalsaCounter.AdvanceByOneFromOne, SalsaSkip.SkipAsWrittenStalls | SalsaCounter.AdvanceCounterBy, SalsaCounter.AdvanceCounterByAdds |
| src/goryachev/memsafecrypto/bc/Salsa20Engine.java:168 | the carry into word 9 is `get(8) < oldState` on signed ints | with add repaired: word 8 at INT_MAX, advance by 1 carries although the unsigned sum 2^31 did not wrap; word 8 at 0xFFFFFFFF, advance by 1 wraps to 0 and does not carry | carry exactly when the unsigned 32-bit sum wraps | medium; not executed | SalsaCounter.AdvanceCounterBySignedTest, SalsaCounter.SignedTestCarriesFromIntMax, SalsaCounter.SignedTestMissesFromMinusOne | SalsaCounter.AdvanceCounterBy, SalsaCounter.AdvanceCounterByAdds |
| src/goryachev/memsafecrypto/bc/Salsa20Engine.java:610-639 | the limit tests `cW2 & 0x20`, bit 5 of the top word | count 2^69 - 1, one more byte: refused | refuse at 2^70 bytes, as the exception message and the comment `2^(32 + 32 + 6)` say (bit 6, 0x40) | medium; not executed | SalsaStream.LimitExceededBy, SalsaStream.LimitTripsAt2To69, SalsaStream.LimitHalvesAllowance | SalsaStream.LimitExceededByIntended, SalsaStream.LimitExceededIntended, SalsaStream.IntendedLimitTripsAt2To70 |
| src/goryachev/memsafecrypto/bc/SCrypt.java:63 | `Integer.MAX_VALUE / (128 * r * 8)` uses an int product | r = 2^22 + 1, N = 2, p = 4 is accepted; with p = 1 it returns a key; r = 2^22 divides by zero (ArithmeticException) | p <= INT_MAX / (1024 r) in exact arithmetic, and IllegalArgument otherwise | medium; not executed | ScryptParams.Check, ScryptParams.MaxParallelWraps, ScryptParams.MaxParallelDividesByZero, ScryptParams.WrappedPassExact, Scrypt.GenerateDividesByZero, Scrypt.WrappedCheckGivesKey, Scrypt.GenerateAsWrittenWrapped | ScryptParams.CheckIntended, Scrypt.Generate |
| src/goryachev/memsafecrypto/bc/SCrypt.java:96-101 | the chunk loop stops on `N - d > 2`, comparing d with N itself rather than with log2 N | N = 4, r = 1024, p = 1: d = 2, chunks of one block, and the fill loop writes past the chunk | stop while every chunk keeps at least two blocks (d < log2 N) | medium; not executed | ScryptParams.ChunkExponent, Scrypt.GenerateAsWritten, Scrypt.OneBlockChunksThrow | ScryptParams.ChunkExponentIntended, Scrypt.Generate |
| src/goryachev/memsafecrypto/bc/SCrypt.java:96, :151 | `total = N * r` and `new CIntArray(blocksPerChunk * BCount)` are int products, and so is the constructor's `capacity * 4` | N = 2^22, r = 512, p = 1 (accepted): N * r wraps to INT_MIN, the loop keeps d = 0, and the chunk of 2^22 blocks of 16384 ints is a count of 2^36 ints, which wraps to 0; the first copy into it throws IndexOutOfBoundsException | total in exact arithmetic, so that d splits N into chunks whose size fits an int | medium; not executed | Scrypt.GenerateAsWritten, Scrypt.ChunkCapacity, Scrypt.ChunkAllocationWraps | Scrypt.Generate, Scrypt.IntendedChunkFits |
| src/goryachev/memsafecrypto/CByteArrayInputStream.java:77-82 | read(target, offset, length) reads `buffer.get(i + position)` and also increments position | [1, 2, 3], read two bytes: gives [1, 3] | the next `length` bytes in order ([1, 2]) | high; not executed | ByteInput.ReadIntoAsWritten, ByteInput.ReadIntoSkips | ByteInput.ReadInto |
| src/goryachev/memsafecrypto/CByteArrayInputStream.java:27-33 | the range constructor copies the slice to a new buffer but starts at `offset` and ends at `offset + length` | [1, 2], offset 1, length 1: position 1 in a one-byte buffer | position 0 and size `length` in the copied slice | high; not executed | ByteInput.FromRangeAsWritten, ByteInput.RangeConstructorMisreads | ByteInput.FromRange |
| src/goryachev/memsafecrypto/bc/Argon2BytesGenerator.java:453, :464 | `r = ((outLen + 31) / 32) - 2` and `lastLength = outLen - 32 * r` are int expressions | outLen = INT_MAX: outLen + 31 wraps, r = -67108865, the loop makes no pass, lastLength = 31, and 63 bytes are written while generateBytes returns INT_MAX | H'^outLen of RFC 9106, outLen bytes, or a refusal of lengths the output cannot hold | low (an output of 2 GiB); not executed | Argon2Hash.PiecesAsWritten, Argon2Hash.LastLength, Argon2Hash.Hash, Argon2Hash.HashAtIntMax, Argon2Generate.GenerateBytes, Argon2Generate.GenerateBytesAtIntMax | Argon2Hash.HPrimeSpec, Argon2Generate.TagIntended, Argon2Generate.GenerateBytesIntended, Argon2Generate.GenerateBytesAgree |
| src/goryachev/memsafecrypto/bc/Argon2BytesGenerator.java:400 | `(int)(startPosition + relativePosition) % laneLength` casts before the remainder | one lane, memory INT_MAX KiB (2^31 - 4 blocks per lane), pass 1, slice 2, index 0, pseudo-random 0: column -1073741832 | the remainder of the long sum, 1073741820 | low (needs about 2 TiB of memory); not executed | Argon2.RefColumnAsWritten, Argon2.RefColumnWrapsNegative | Argon2.RefColumn |
