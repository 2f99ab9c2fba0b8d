/** Argon2BytesGenerator.generateBytes: initialize (H0 and the first two blocks of every lane),
    fillMemoryBlocks, digest (the xor of the last blocks hashed with H') and reset. */
module Argon2Generate {
  import opened Errors
  import opened JavaInt
  import opened CUtils
  import opened DirectArray
  import opened SecureBytes
  import opened Argon2Block
  import opened Argon2Params
  import opened Argon2
  import opened Argon2Hash

  // initialize

  /** addByteString: the length as a little-endian int and then the bytes; four zero bytes
      for a null buffer. */
  function ByteString(octets: Option<CByteArray>): (r: seq<bv8>)
    ensures octets.None? ==> r == [0, 0, 0, 0]
    ensures octets.Some? ==> |r| == 4 + octets.value.Length() && r[..4] == Le32(octets.value.Length())
                             && r[4..] == octets.value.Bytes()
  {
    match octets
    case None => [0, 0, 0, 0]
    case Some(b) => Le32(b.Length()) + b.Bytes()
  }

  /** The six ints initialize packs before the byte strings: p, T, m, t, v and y of RFC 9106
      section 3.2. */
  function Header(p: Params, outLen: int32): seq<bv32> {
    [ToBits(p.lanes), ToBits(outLen), ToBits(p.memory), ToBits(p.iterations), ToBits(p.version),
     ToBits(p.argonType)]
  }

  /** The message H0 is the 64-byte digest of. */
  function PreHashInput(p: Params, password: Option<CByteArray>, outLen: int32): (r: seq<bv8>)
    ensures |r| >= 40
  {
    IntsToLE(Header(p, outLen)) + ByteStrings(p, password)
  }

  /** The password, salt, secret and associated data, each as addByteString gives it. */
  function ByteStrings(p: Params, password: Option<CByteArray>): seq<bv8> {
    ByteString(password) + ByteString(p.salt) + ByteString(p.secret) + ByteString(p.additional)
  }

  /** The first 24 bytes of the message read back, four at a time, as the six header ints. */
  lemma HeaderReadsBack(p: Params, password: Option<CByteArray>, outLen: int32, k: nat)
    requires k < 6
    ensures LEToInt(PreHashInput(p, password, outLen), 4 * k) == Header(p, outLen)[k]
  {
    PackedReadsBack(Header(p, outLen), ByteStrings(p, password), k);
  }

  /** Word k of packed words, whatever follows them, reads back as the k-th word. */
  lemma PackedReadsBack(ns: seq<bv32>, rest: seq<bv8>, k: nat)
    requires k < |ns|
    ensures LEToInt(IntsToLE(ns) + rest, 4 * k) == ns[k]
  {
    var r := IntsToLE(ns) + rest;
    IntsToLEAt(ns, k);
    LEToIntSuffix(r, 4 * k);
    LEToIntPrefix(r[4 * k..], 4, 0);
    assert r[4 * k..][..4] == IntsToLE(ns)[4 * k..4 * k + 4];
    LEToIntOfIntToLE(ns[k]);
  }

  /** H0: the 64-byte BLAKE2b digest of the header and the four byte strings. */
  function PreHash(blake: Blake, p: Params, password: Option<CByteArray>, outLen: int32): (h0: seq<bv8>)
    ensures |h0| == PREHASH_DIGEST_LENGTH
  {
    blake(PREHASH_DIGEST_LENGTH, PreHashInput(p, password, outLen))
  }

  /** initialHashWithZeros / initialHashWithOnes for lane i: H0, the block number as an int,
      and the lane as an int. */
  function Seed(h0: seq<bv8>, k: bv8, lane: nat): (r: seq<bv8>)
    requires |h0| == PREHASH_DIGEST_LENGTH
    ensures |r| == PREHASH_SEED_LENGTH && r[..64] == h0 && r[64..68] == [k, 0, 0, 0] && r[68..] == Le32(lane)
  {
    h0 + [k, 0, 0, 0] + Le32(lane)
  }

  /** The block H'^1024(seed) read as 128 little-endian words. */
  function FirstBlock(blake: Blake, h0: seq<bv8>, k: bv8, lane: nat): Block
    requires |h0| == PREHASH_DIGEST_LENGTH
  {
    FromBytes(HPrimeSpec(blake, BLOCK_BYTES, Seed(h0, k, lane))).value
  }

  /** Word i of a first block is bytes 8 i .. 8 i + 7 of H'^1024 of its seed, little-endian. */
  lemma FirstBlockWords(blake: Blake, h0: seq<bv8>, k: bv8, lane: nat, i: nat)
    requires |h0| == PREHASH_DIGEST_LENGTH && i < QWORDS
    ensures FirstBlock(blake, h0, k, lane)[i] == LEToLong(HPrimeSpec(blake, BLOCK_BYTES, Seed(h0, k, lane)), 8 * i)
  {
  }

  /** Where the first two columns of a lane sit. */
  lemma LaneStart(g: Geometry, lane: nat)
    requires ValidGeometry(g) && lane < g.lanes
    ensures lane * g.LaneLength() + 1 < g.Blocks()
    ensures (lane * g.LaneLength()) % g.LaneLength() == 0 && (lane * g.LaneLength() + 1) % g.LaneLength() == 1
    ensures (lane + 1) * g.LaneLength() == lane * g.LaneLength() + g.LaneLength()
  {
    LaneSlot(g, lane, 1);
    Bits.ModUnique(lane * g.LaneLength(), g.LaneLength(), lane, 0);
    Bits.ModUnique(lane * g.LaneLength() + 1, g.LaneLength(), lane, 1);
  }

  /** The blocks fillFirstBlocks stores: seeds(k, i) goes to column k of lane i. */
  type Seeds = (bv8, nat) -> Block

  /** fillFirstBlocks' blocks for H0: seeds(k, i) = the block of H'^1024(H0 || k || i). */
  function FirstBlocks(blake: Blake, h0: seq<bv8>): Seeds
    requires |h0| == PREHASH_DIGEST_LENGTH
  {
    (k: bv8, lane: nat) => FirstBlock(blake, h0, k, lane)
  }

  /** fillFirstBlocks from lane `lane` on: columns 0 and 1 of each lane get seeds(0, i) and
      seeds(1, i). Lanes before `lane` are kept, and so are the other columns
      (FirstBlocksFrame). */
  function FillFirstFrom(seeds: Seeds, g: Geometry, lane: nat, memory: seq<Block>): (m: seq<Block>)
    requires ValidGeometry(g) && lane <= g.lanes && |memory| == g.Blocks()
    ensures |m| == |memory|
    ensures forall k :: 0 <= k < |memory| && k < lane * g.LaneLength() ==> m[k] == memory[k]
    decreases g.lanes - lane
  {
    if lane == g.lanes then memory
    else FillFirstFrom(seeds, g, lane + 1, SeedLane(seeds, g, lane, memory))
  }

  /** One turn of fillFirstBlocks' loop: the first two columns of one lane. */
  function SeedLane(seeds: Seeds, g: Geometry, lane: nat, memory: seq<Block>): (m: seq<Block>)
    requires ValidGeometry(g) && lane < g.lanes && |memory| == g.Blocks()
    ensures |m| == |memory| && lane * g.LaneLength() + 1 < |m|
    ensures m[lane * g.LaneLength()] == seeds(0, lane) && m[lane * g.LaneLength() + 1] == seeds(1, lane)
    ensures forall k :: 0 <= k < |memory| && k < lane * g.LaneLength() ==> m[k] == memory[k]
    ensures forall k :: 0 <= k < |memory| && k % g.LaneLength() >= 2 ==> m[k] == memory[k]
    ensures lane * g.LaneLength() < (lane + 1) * g.LaneLength()
  {
    LaneStart(g, lane);
    SeedAt(memory, lane * g.LaneLength(), g.LaneLength(), seeds(0, lane), seeds(1, lane))
  }

  /** The two stores of SeedLane, at a lane start `start` of lanes `width` blocks long. */
  function SeedAt(memory: seq<Block>, start: nat, width: nat, b0: Block, b1: Block): (m: seq<Block>)
    requires width >= 2 && start + 1 < |memory| && start % width == 0 && (start + 1) % width == 1
    ensures |m| == |memory| && m[start] == b0 && m[start + 1] == b1
    ensures forall k :: 0 <= k < |memory| && k < start ==> m[k] == memory[k]
    ensures forall k :: 0 <= k < |memory| && k % width >= 2 ==> m[k] == memory[k]
  {
    memory[start := b0][start + 1 := b1]
  }

  /** After fillFirstBlocks, lane i starts with its two seed blocks. */
  lemma {:induction false} FirstBlocksSeeded(seeds: Seeds, g: Geometry, lane: nat, memory: seq<Block>, i: nat)
    requires ValidGeometry(g) && lane <= i < g.lanes && |memory| == g.Blocks()
    ensures i * g.LaneLength() + 1 < g.Blocks()
    ensures FillFirstFrom(seeds, g, lane, memory)[i * g.LaneLength()] == seeds(0, i)
    ensures FillFirstFrom(seeds, g, lane, memory)[i * g.LaneLength() + 1] == seeds(1, i)
    decreases g.lanes - lane
  {
    var seeded := SeedLane(seeds, g, lane, memory);
    var m := FillFirstFrom(seeds, g, lane + 1, seeded);
    assert FillFirstFrom(seeds, g, lane, memory) == m;
    if i == lane {
      var start := lane * g.LaneLength();
      assert start + 1 < (lane + 1) * g.LaneLength() by {
        LaneStart(g, lane);
      }
      assert m[start] == seeded[start] && m[start + 1] == seeded[start + 1];
    } else {
      FirstBlocksSeeded(seeds, g, lane + 1, seeded, i);
    }
  }

  /** fillFirstBlocks writes nothing but the first two columns of each lane. */
  lemma {:induction false} FirstBlocksFrame(seeds: Seeds, g: Geometry, lane: nat, memory: seq<Block>, k: nat)
    requires ValidGeometry(g) && lane <= g.lanes && |memory| == g.Blocks()
    requires k < |memory| && k % g.LaneLength() >= 2
    ensures FillFirstFrom(seeds, g, lane, memory)[k] == memory[k]
    decreases g.lanes - lane
  {
    if lane < g.lanes {
      var seeded := SeedLane(seeds, g, lane, memory);
      assert FillFirstFrom(seeds, g, lane, memory) == FillFirstFrom(seeds, g, lane + 1, seeded);
      FirstBlocksFrame(seeds, g, lane + 1, seeded, k);
    }
  }

  // digest

  /** The final block B of RFC 9106 section 3.2 step 7: the xor of the last blocks of the
      first n lanes. */
  function LastBlocks(g: Geometry, memory: seq<Block>, n: nat): Block
    requires ValidGeometry(g) && 1 <= n <= g.lanes && |memory| == g.Blocks()
  {
    LaneSlot(g, n - 1, g.LaneLength() - 1);
    if n == 1 then memory[g.LaneLength() - 1]
    else Xor(LastBlocks(g, memory, n - 1), memory[(n - 1) * g.LaneLength() + (g.LaneLength() - 1)])
  }

  /** digest's loop: the last block of lane 0 xor-ed with the last block of each other lane. */
  method FinalBlock(g: Geometry, memory: seq<Block>) returns (b: Block)
    requires ValidGeometry(g) && |memory| == g.Blocks()
    ensures b == LastBlocks(g, memory, g.lanes)
  {
    LaneSlot(g, 0, g.LaneLength() - 1);
    b := memory[g.LaneLength() - 1];
    var i := 1;
    while i < g.lanes
      invariant 1 <= i <= g.lanes && b == LastBlocks(g, memory, i)
    {
      LaneSlot(g, i, g.LaneLength() - 1);
      b := Xor(b, memory[i * g.LaneLength() + (g.LaneLength() - 1)]);
      i := i + 1;
    }
  }

  /** Word w of the final block of one more lane is the previous word xor-ed with that lane's
      last block. */
  lemma LastBlocksStep(g: Geometry, memory: seq<Block>, n: nat, w: nat)
    requires ValidGeometry(g) && 2 <= n <= g.lanes && |memory| == g.Blocks() && w < QWORDS
    ensures (n - 1) * g.LaneLength() + (g.LaneLength() - 1) < |memory|
    ensures LastBlocks(g, memory, n)[w]
            == LastBlocks(g, memory, n - 1)[w] ^ memory[(n - 1) * g.LaneLength() + (g.LaneLength() - 1)][w]
  {
    LaneSlot(g, n - 1, g.LaneLength() - 1);
  }

  // generateBytes

  /** The 1024 bytes digest hashes: the final block of a run, after H0, the first blocks and
      every pass. */
  function FinalBytes(blake: Blake, perm: Compression, gen: Generator, password: Option<CByteArray>, outLen: int32): (x: seq<bv8>)
    requires GeneratorOk(gen)
    ensures |x| == BLOCK_BYTES
  {
    var g := gen.geometry;
    var h0 := PreHash(blake, gen.params, password, outLen);
    var seeded := FillFirstFrom(FirstBlocks(blake, h0), g, 0, gen.memory);
    var filled := FillPasses(perm, g, gen.params, 0, seeded);
    LongsToLE(LastBlocks(g, filled, g.lanes))
  }

  /** The bytes digest writes: hash of the final bytes as written. They are the outLen bytes
      of H'^outLen up to INT_MAX - 31, and only 34 to 65 bytes above. */
  function Tag(blake: Blake, perm: Compression, gen: Generator, password: Option<CByteArray>, outLen: int32): (t: seq<bv8>)
    requires GeneratorOk(gen) && outLen >= MIN_OUTLEN
    ensures outLen <= INT_MAX - 31 ==> t == TagIntended(blake, perm, gen, password, outLen) && |t| == outLen
    ensures outLen > INT_MAX - 31 ==> |t| == 32 + LastLength(outLen) && 34 <= |t| <= 65 && |t| < outLen
  {
    Hash(blake, outLen, FinalBytes(blake, perm, gen, password, outLen))
  }

  /** The tag as intended: H'^outLen of RFC 9106 section 3.3, outLen bytes for every outLen. */
  function TagIntended(blake: Blake, perm: Compression, gen: Generator, password: Option<CByteArray>, outLen: int32): (t: seq<bv8>)
    requires GeneratorOk(gen) && outLen >= MIN_OUTLEN
    ensures |t| == outLen
  {
    HPrimeSpec(blake, outLen, FinalBytes(blake, perm, gen, password, outLen))
  }

  /** What generateBytes hands back: the count it returns, the generator after the run and
      the output buffer. */
  datatype Run = Run(written: int32, generator: Generator, out: CByteArray)

  /** generateBytes(password, out, outOff, outLen): refused with IllegalStateException below
      four bytes; otherwise the tag as written goes to Finish, which returns outLen. */
  function GenerateBytes(blake: Blake, perm: Compression, gen: Generator, password: Option<CByteArray>,
                         out: CByteArray, outOff: int32, outLen: int32): (r: Result<Run>)
    requires GeneratorOk(gen)
    ensures outLen < MIN_OUTLEN ==> r == Err(IllegalState)
    ensures outLen >= MIN_OUTLEN ==> r == Finish(gen, Tag(blake, perm, gen, password, outLen), out, outOff, outLen)
  {
    (:- Need(outLen >= MIN_OUTLEN, IllegalState);
    Finish(gen, Tag(blake, perm, gen, password, outLen), out, outOff, outLen))
  }

  /** generateBytes with H' as intended: the intended tag goes to Finish, so a successful run
      writes exactly outLen bytes from outOff on. */
  function GenerateBytesIntended(blake: Blake, perm: Compression, gen: Generator, password: Option<CByteArray>,
                                 out: CByteArray, outOff: int32, outLen: int32): (r: Result<Run>)
    requires GeneratorOk(gen)
    ensures outLen < MIN_OUTLEN ==> r == Err(IllegalState)
    ensures outLen >= MIN_OUTLEN ==>
              (r.Ok? <==> !out.store.readOnly && 0 <= outOff && outOff + outLen <= out.Length())
    ensures r.Ok? ==> r.value.written == outLen
                      && r.value.out.Bytes() == out.Bytes()[..outOff] + TagIntended(blake, perm, gen, password, outLen)
                                                + out.Bytes()[outOff + outLen..]
  {
    (:- Need(outLen >= MIN_OUTLEN, IllegalState);
    Finish(gen, TagIntended(blake, perm, gen, password, outLen), out, outOff, outLen))
  }

  /** Up to INT_MAX - 31 generateBytes as written is generateBytes as intended. */
  lemma GenerateBytesAgree(blake: Blake, perm: Compression, gen: Generator, password: Option<CByteArray>,
                           out: CByteArray, outOff: int32, outLen: int32)
    requires GeneratorOk(gen) && outLen <= INT_MAX - 31
    ensures GenerateBytes(blake, perm, gen, password, out, outOff, outLen)
            == GenerateBytesIntended(blake, perm, gen, password, out, outOff, outLen)
  {
  }

  /** With outLen = INT_MAX, generateBytes as written fills 63 bytes of a writable 64-byte
      buffer and returns INT_MAX; as intended the buffer is too small. */
  lemma GenerateBytesAtIntMax(blake: Blake, perm: Compression, gen: Generator, password: Option<CByteArray>, out: CByteArray)
    requires GeneratorOk(gen) && !out.store.readOnly && out.Length() == 64
    ensures var r := GenerateBytes(blake, perm, gen, password, out, 0, INT_MAX);
            r.Ok? && r.value.written == INT_MAX && r.value.out.Bytes()[63..] == out.Bytes()[63..]
    ensures GenerateBytesIntended(blake, perm, gen, password, out, 0, INT_MAX).Err?
  {
    HashAtIntMax(blake, FinalBytes(blake, perm, gen, password, INT_MAX));
  }

  /** The end of a run once the tag is known: write all of it from outOff on, return outLen
      and reset the memory. The parameters' secret and associated data were zeroed by
      initialize. */
  function Finish(gen: Generator, tag: seq<bv8>, out: CByteArray, outOff: int32, outLen: int32): (r: Result<Run>)
    requires GeneratorOk(gen) && outLen >= MIN_OUTLEN && |tag| <= INT_MAX
    ensures r.Ok? <==> !out.store.readOnly && 0 <= outOff && outOff + |tag| <= out.Length()
    ensures r.Ok? ==> r.value.written == outLen && r.value.out.Length() == out.Length()
    ensures r.Ok? ==> r.value.out.Bytes() == out.Bytes()[..outOff] + tag + out.Bytes()[outOff + |tag|..]
    ensures r.Ok? ==> GeneratorOk(r.value.generator) && r.value.generator.geometry == gen.geometry
    ensures r.Ok? ==> forall k :: 0 <= k < |r.value.generator.memory| ==> r.value.generator.memory[k] == ZeroBlock()
    ensures r.Ok? ==> r.value.generator.params
                      == gen.params.(secret := ZeroOf(gen.params.secret), additional := ZeroOf(gen.params.additional))
  {
    var written :- SetRange(out, outOff, tag, 0, |tag|);
    assert tag[0..|tag|] == tag;
    var params := gen.params.(secret := ZeroOf(gen.params.secret), additional := ZeroOf(gen.params.additional));
    Ok(Run(outLen, Generator(params, gen.geometry, Reset(gen.memory)), written))
  }

  /** reset(): every block cleared. */
  function Reset(memory: seq<Block>): (m: seq<Block>)
    ensures |m| == |memory| && forall k :: 0 <= k < |m| ==> m[k] == ZeroBlock()
  {
    seq(|memory|, _ => ZeroBlock())
  }

  /** Two buffers that differ at most in their bytes: same presence, size, flag and position. */
  predicate SameShape(a: Option<CByteArray>, b: Option<CByteArray>) {
    a.None? == b.None?
    && (a.Some? ==> a.value.Length() == b.value.Length() && a.value.store.readOnly == b.value.store.readOnly
                    && a.value.store.position == b.value.store.position)
  }

  /** After a run the generator keeps nothing of the secret or the associated data: two
      generators that differ only in those bytes come out of a run identical. */
  lemma RunForgetsSecret(blake: Blake, perm: Compression, gen: Generator, secret: Option<CByteArray>,
                         additional: Option<CByteArray>, password: Option<CByteArray>, out: CByteArray,
                         outOff: int32, outLen: int32)
    requires GeneratorOk(gen) && SameShape(gen.params.secret, secret) && SameShape(gen.params.additional, additional)
    ensures var other := gen.(params := gen.params.(secret := secret, additional := additional));
            var r1 := GenerateBytes(blake, perm, gen, password, out, outOff, outLen);
            var r2 := GenerateBytes(blake, perm, other, password, out, outOff, outLen);
            (r1.Ok? <==> r2.Ok?) && (r1.Ok? ==> r1.value.generator == r2.value.generator)
  {
    ZeroSameShape(gen.params.secret, secret);
    ZeroSameShape(gen.params.additional, additional);
    if outLen >= MIN_OUTLEN {
      var other := gen.(params := gen.params.(secret := secret, additional := additional));
      var t1 := Tag(blake, perm, gen, password, outLen);
      var t2 := Tag(blake, perm, other, password, outLen);
      assert |t1| == |t2|;
      FinishForgets(gen, other, t1, t2, out, outOff, outLen);
    }
  }

  /** Finish on two generators whose secrets zero alike, with tags of one length: both
      succeed or both fail, and leave the same generator. */
  lemma FinishForgets(gen: Generator, other: Generator, t1: seq<bv8>, t2: seq<bv8>, out: CByteArray,
                      outOff: int32, outLen: int32)
    requires GeneratorOk(gen) && GeneratorOk(other) && outLen >= MIN_OUTLEN && |t1| == |t2| <= INT_MAX
    requires other.geometry == gen.geometry && other.memory == gen.memory
    requires other.params == gen.params.(secret := other.params.secret, additional := other.params.additional)
    requires ZeroOf(other.params.secret) == ZeroOf(gen.params.secret)
    requires ZeroOf(other.params.additional) == ZeroOf(gen.params.additional)
    ensures var r1 := Finish(gen, t1, out, outOff, outLen);
            var r2 := Finish(other, t2, out, outOff, outLen);
            (r1.Ok? <==> r2.Ok?) && (r1.Ok? ==> r1.value.generator == r2.value.generator)
  {
  }

  /** Zeroing makes buffers of the same shape equal. */
  lemma ZeroSameShape(a: Option<CByteArray>, b: Option<CByteArray>)
    requires SameShape(a, b)
    ensures ZeroOf(a) == ZeroOf(b)
  {
    if a.Some? {
      var za := ZeroOf(a).value.store;
      var zb := ZeroOf(b).value.store;
      assert za.bytes == zb.bytes;
    }
  }
}
