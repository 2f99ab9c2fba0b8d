/** MemCrypt: encryption of sensitive values kept in memory. A blob is the 24-byte random
    nonce followed by the XSalsa20 encryption of the data. The key is never stored: each call
    derives it again with Blake2b-256 from four bytes of static entropy and three hash codes
    of the running session, and zeroes it after use. */
module MemCrypt {
  import opened Errors
  import opened JavaInt
  import opened DirectArray
  import opened SecureBytes
  import XSalsaTools

  const NONCE_LENGTH: nat := 24
  const KEY_LENGTH: nat := 32

  /** Blake2b with a 256-bit digest, fed the bytes of all its update calls in order. */
  type Blake2b256 = f: seq<bv8> -> seq<bv8> | forall m :: |f(m)| == KEY_LENGTH
    witness (m: seq<bv8>) => seq(KEY_LENGTH, _ => 0 as bv8)

  /** A nonce drawn from SecureRandom: exactly 24 bytes. */
  type Nonce = s: seq<bv8> | |s| == NONCE_LENGTH witness seq(NONCE_LENGTH, _ => 0 as bv8)

  /** What the key depends on: the four SecureRandom.nextInt() values drawn once when the class
      is loaded, and the hash codes of the classes Object, String and MemCrypt, each an int
      given by its 32-bit pattern. */
  datatype Session = Session(draw1: bv32, draw2: bv32, draw3: bv32, draw4: bv32,
                             objectHash: bv32, stringHash: bv32, memCryptHash: bv32)

  /** `(byte) x`: the low eight bits of an int. */
  function LowByte(x: bv32): (b: bv8)
    ensures b as bv32 == x & 0xFF
  {
    (x & 0xFF) as bv8
  }

  /** initStaticEntropy(): `nextInt() & 0xff`, a number in 0..255 with the low byte of the draw. */
  function StaticEntropy(next: bv32): (r: bv32)
    ensures r < 0x100 && LowByte(r) == LowByte(next)
  {
    next & 0xFF
  }

  /** update(d, x): the four bytes `x >>> 24`, `x >>> 16`, `x >>> 8` and `x`, each cast to byte,
      that is x in big-endian order. */
  function BigEndian(x: bv32): (r: seq<bv8>)
    ensures |r| == 4 && r[0] as bv32 == x >> 24 && r[3] as bv32 == x & 0xFF
  {
    [(x >> 24) as bv8, ((x >> 16) & 0xFF) as bv8, ((x >> 8) & 0xFF) as bv8, (x & 0xFF) as bv8]
  }

  /** The int whose big-endian bytes are bs[0..4]. */
  function FromBigEndian(bs: seq<bv8>): (x: bv32)
    requires |bs| == 4
    ensures x >> 24 == bs[0] as bv32 && x & 0xFF == bs[3] as bv32
  {
    (bs[0] as bv32 << 24) | (bs[1] as bv32 << 16) | (bs[2] as bv32 << 8) | (bs[3] as bv32)
  }

  /** The four bytes update(d, x) feeds give x back. */
  lemma BigEndianRoundTrip(x: bv32)
    ensures FromBigEndian(BigEndian(x)) == x
  {
  }

  /** Everything generateKey feeds to the digest, in order: the low byte of each static
      entropy value, then the three hash codes, big-endian. */
  function KeyMaterial(s: Session): (m: seq<bv8>)
    ensures |m| == 16
  {
    [LowByte(StaticEntropy(s.draw1)), LowByte(StaticEntropy(s.draw2)),
     LowByte(StaticEntropy(s.draw3)), LowByte(StaticEntropy(s.draw4))]
    + BigEndian(s.objectHash) + BigEndian(s.stringHash) + BigEndian(s.memCryptHash)
  }

  /** The key material can be read back: bytes 0..3 are the low bytes of the four draws and
      bytes 4..15 are the three hash codes in big-endian order. */
  lemma KeyMaterialReadsBack(s: Session)
    ensures var m := KeyMaterial(s);
            m[0] == LowByte(s.draw1) && m[1] == LowByte(s.draw2)
            && m[2] == LowByte(s.draw3) && m[3] == LowByte(s.draw4)
            && FromBigEndian(m[4..8]) == s.objectHash
            && FromBigEndian(m[8..12]) == s.stringHash
            && FromBigEndian(m[12..16]) == s.memCryptHash
  {
    var m := KeyMaterial(s);
    assert m[4..8] == BigEndian(s.objectHash);
    assert m[8..12] == BigEndian(s.stringHash);
    assert m[12..16] == BigEndian(s.memCryptHash);
    BigEndianRoundTrip(s.objectHash);
    BigEndianRoundTrip(s.stringHash);
    BigEndianRoundTrip(s.memCryptHash);
  }

  /** generateKey(): the digest of the key material, as a read-only 32-byte buffer. */
  function GenerateKey(digest: Blake2b256, s: Session): (k: CByteArray)
    ensures k.Length() == KEY_LENGTH && k.store.readOnly
  {
    ReadOnlyCopy(digest(KeyMaterial(s)))
  }

  /** Within one session the key is the same on every call: it depends on nothing else. */
  lemma KeyIsStable(digest: Blake2b256, s: Session, t: Session)
    requires KeyMaterial(s) == KeyMaterial(t)
    ensures GenerateKey(digest, s).Bytes() == GenerateKey(digest, t).Bytes()
  {
  }

  /** The outcome of a call and the key buffer after `Crypto.zero(key)` in the finally block;
      there is no key when the call failed before generateKey. */
  datatype Sealed = Sealed(result: Result<CByteArray>, key: Option<CByteArray>)

  /** No key material is left in the key buffer. */
  predicate Wiped(k: CByteArray) {
    forall i :: 0 <= i < k.Length() ==> k.Bytes()[i] == 0
  }

  /** `new CByteArray(24)` filled with the nonce by nextBytes, one byte at a time. */
  function NonceBuffer(nonce: seq<bv8>): (b: CByteArray)
    requires |nonce| == NONCE_LENGTH
    ensures b.Bytes() == nonce && b.Length() == NONCE_LENGTH
  {
    CByteArray(Storage(nonce, false, NONCE_LENGTH))
  }

  /** The blob before encryption: `new CByteArray(size)` with the nonce written at its start.
      A negative size (the wrapped sum) fails the allocation. */
  function Framed(nonce: Nonce, size: int32): (r: Result<CByteArray>)
    ensures r.Ok? <==> size >= NONCE_LENGTH as int32
    ensures size < 0 ==> r == Err(IllegalArgument)
    ensures r.Ok? ==> r.value.Length() == size && !r.value.store.readOnly
                      && r.value.Bytes()[..NONCE_LENGTH] == nonce
  {
    var out :- SecureBytes.New(size);
    WriteAll(out, NonceBuffer(nonce))
  }

  /** encrypt(data): a buffer of data.length() + 24 bytes (an int sum, so it wraps for data
      within 24 bytes of the int range and the allocation then fails), the nonce written at
      its start, the data encrypted into the rest with the derived key, the key zeroed. */
  function Encrypt(data: CByteArray, nonce: Nonce, digest: Blake2b256, s: Session): (c: Sealed)
    requires data.Length() <= INT_MAX
    ensures c.result.Ok? ==> c.result.value.Length() == data.Length() + NONCE_LENGTH
    ensures c.key.Some? ==> Wiped(c.key.value)
  {
    var framed := Framed(nonce, IntAdd(data.Length() as int32, NONCE_LENGTH as int32));
    if framed.Err? then Sealed(Err(framed.error), None)
    else
      var key := GenerateKey(digest, s);
      var r := XSalsaTools.Encrypt(key, NonceBuffer(nonce), data, framed.value, NONCE_LENGTH as int32, data.Length() as int32);
      Sealed(r.result, Some(CByteArray(Zero(key.store))))
  }

  /** decrypt(data): the first 24 bytes are read back as the nonce (a blob shorter than that
      ends the stream first), then the remaining data.length() - 24 bytes are decrypted into a
      new buffer of that size with the derived key, and the key is zeroed. */
  function Decrypt(data: CByteArray, digest: Blake2b256, s: Session): (c: Sealed)
    requires data.Length() <= INT_MAX
    ensures data.Length() < NONCE_LENGTH ==> c == Sealed(Err(EndOfStream), None)
    ensures c.result.Ok? ==> c.result.value.Length() == data.Length() - NONCE_LENGTH
    ensures c.key.Some? ==> Wiped(c.key.value)
  {
    if data.Length() < NONCE_LENGTH then Sealed(Err(EndOfStream), None)
    else
      var size := data.Length() - NONCE_LENGTH;
      var nb := NonceBuffer(data.Bytes()[..NONCE_LENGTH]);
      var out := SecureBytes.New(size).value;
      var key := GenerateKey(digest, s);
      var r := XSalsaTools.Decrypt(key, nb, NONCE_LENGTH as int32, size as int32, data, out);
      Sealed(r.result, Some(CByteArray(Zero(key.store))))
  }

  /** For data within 24 bytes of the int range the size wraps negative and the allocation
      fails before any key is made. */
  lemma EncryptTooLarge(data: CByteArray, nonce: Nonce, digest: Blake2b256, s: Session)
    requires INT_MAX - NONCE_LENGTH < data.Length() <= INT_MAX
    ensures Encrypt(data, nonce, digest, s) == Sealed(Err(IllegalArgument), None)
  {
  }

  /** When the size does not wrap, encrypt is one XSalsaTools encrypt into the framed blob. */
  lemma EncryptUnfolds(data: CByteArray, nonce: Nonce, digest: Blake2b256, s: Session)
    requires data.Length() <= INT_MAX - NONCE_LENGTH
    ensures Framed(nonce, data.Length() as int32 + NONCE_LENGTH as int32).Ok?
    ensures Encrypt(data, nonce, digest, s).result
            == XSalsaTools.Encrypt(GenerateKey(digest, s), NonceBuffer(nonce), data,
                                   Framed(nonce, data.Length() as int32 + NONCE_LENGTH as int32).value,
                                   NONCE_LENGTH as int32, data.Length() as int32).result
  {
  }

  /** A blob of at least 24 bytes is one XSalsaTools decrypt of its tail with its head as the
      nonce. */
  lemma DecryptUnfolds(blob: CByteArray, digest: Blake2b256, s: Session)
    requires NONCE_LENGTH <= blob.Length() <= INT_MAX
    ensures Decrypt(blob, digest, s).result
            == XSalsaTools.Decrypt(GenerateKey(digest, s), NonceBuffer(blob.Bytes()[..NONCE_LENGTH]),
                                   NONCE_LENGTH as int32, (blob.Length() - NONCE_LENGTH) as int32, blob,
                                   SecureBytes.New(blob.Length() - NONCE_LENGTH).value).result
  {
  }

  /** Encrypting into a buffer that starts with the nonce keeps the nonce in front. */
  lemma NonceKept(key: CByteArray, nonce: Nonce, data: CByteArray, framed: CByteArray, len: int32)
    requires key.Length() == KEY_LENGTH && 0 <= len <= data.Length()
    requires framed.Length() == len + NONCE_LENGTH && !framed.store.readOnly
    ensures var r := XSalsaTools.Encrypt(key, NonceBuffer(nonce), data, framed, NONCE_LENGTH as int32, len);
            r.result.Ok? && r.result.value.Bytes()[..NONCE_LENGTH] == framed.Bytes()[..NONCE_LENGTH]
  {
    XSalsaTools.EncryptKeepsPrefix(key, NonceBuffer(nonce), data, framed, NONCE_LENGTH as int32, len);
  }

  /** The blob starts with the nonce. */
  lemma EncryptNoncePrefix(data: CByteArray, nonce: Nonce, digest: Blake2b256, s: Session)
    requires data.Length() <= INT_MAX - NONCE_LENGTH
    ensures var c := Encrypt(data, nonce, digest, s);
            c.result.Ok? && c.result.value.Bytes()[..NONCE_LENGTH] == nonce
  {
    var len := data.Length() as int32;
    EncryptUnfolds(data, nonce, digest, s);
    NonceKept(GenerateKey(digest, s), nonce, data, Framed(nonce, len + NONCE_LENGTH as int32).value, len);
  }

  /** In the same session, decrypting a blob encrypt produced succeeds, with a result as long
      as the data, empty data included. */
  lemma RoundTripSucceeds(data: CByteArray, nonce: Nonce, digest: Blake2b256, s: Session)
    requires data.Length() <= INT_MAX - NONCE_LENGTH
    ensures var c := Encrypt(data, nonce, digest, s);
            c.result.Ok? && var d := Decrypt(c.result.value, digest, s);
            d.result.Ok? && d.result.value.Length() == data.Length()
  {
    var len := data.Length() as int32;
    var key := GenerateKey(digest, s);
    EncryptNoncePrefix(data, nonce, digest, s);
    var blob := Encrypt(data, nonce, digest, s).result.value;
    XSalsaTools.CallsSucceed(key, NonceBuffer(nonce), blob, SecureBytes.New(len).value, NONCE_LENGTH as int32, len);
  }

  /** decrypt(encrypt(x)) == x within one session: byte k comes back. */
  lemma RoundTrip(data: CByteArray, nonce: Nonce, digest: Blake2b256, s: Session, k: int)
    requires data.Length() <= INT_MAX - NONCE_LENGTH && 0 <= k < data.Length()
    ensures var c := Encrypt(data, nonce, digest, s);
            c.result.Ok? && var d := Decrypt(c.result.value, digest, s);
            d.result.Ok? && d.result.value.Bytes()[k] == data.Bytes()[k]
  {
    var len := data.Length() as int32;
    EncryptUnfolds(data, nonce, digest, s);
    EncryptNoncePrefix(data, nonce, digest, s);
    DecryptUnfolds(Encrypt(data, nonce, digest, s).result.value, digest, s);
    XSalsaTools.RoundTrip(GenerateKey(digest, s), NonceBuffer(nonce), data, Framed(nonce, len + NONCE_LENGTH as int32).value,
                          NONCE_LENGTH as int32, len, SecureBytes.New(len).value, k);
  }
}
